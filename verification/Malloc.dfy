/**
 The user-space allocator: boundary tags over an arena that grows by sbrk, and a
 singly linked free list through the headers of free blocks.
 */
module Malloc {
  import opened Octets
  import opened Blocks
  import opened Seqs

  const W32 := 0x1_0000_0000
  const HDR: pos := 24
  const MIN_BLOCK := 40

  /** size and prevSize count the header; prevSize is 0 for the first block. */
  datatype Header = Header(size: nat, prevSize: nat, next: nat, free: bool)

  type Headers = map<nat, Header>

  function Add32(a: nat, b: nat): (c: nat)
    ensures a + b < W32 ==> c == a + b
  {
    (a + b) % W32
  }

  // ----- boundary tags -----

  ghost function LastSize(bs: seq<Block>, prev: nat): nat {
    if bs == [] then prev else HDR + bs[|bs| - 1].size
  }

  /** The headers from address a on describe these blocks. */
  ghost predicate Tiled(mem: Headers, a: nat, bs: seq<Block>, prev: nat)
    decreases bs
  {
    bs != [] ==>
      && a in mem && mem[a].size == HDR + bs[0].size && mem[a].prevSize == prev && mem[a].free == bs[0].free
      && Tiled(mem, a + HDR + bs[0].size, bs[1..], HDR + bs[0].size)
  }

  predicate SameTag(h: Header, k: Header) { h.size == k.size && h.prevSize == k.prevSize && h.free == k.free }

  lemma {:induction false} TiledConcat(mem: Headers, a: nat, x: seq<Block>, y: seq<Block>, prev: nat)
    ensures Tiled(mem, a, x + y, prev) <==> Tiled(mem, a, x, prev) && Tiled(mem, a + Span(HDR, x), y, LastSize(x, prev))
    decreases x
  {
    if x == [] {
      assert x + y == y;
    } else {
      assert (x + y)[1..] == x[1..] + y && (x + y)[0] == x[0];
      TiledConcat(mem, a + HDR + x[0].size, x[1..], y, HDR + x[0].size);
    }
  }

  lemma {:induction false} TiledFrame(mem: Headers, mem': Headers, a: nat, bs: seq<Block>, prev: nat)
    requires Tiled(mem, a, bs, prev)
    requires forall p :: a <= p < a + Span(HDR, bs) && p in mem ==> p in mem' && SameTag(mem'[p], mem[p])
    ensures Tiled(mem', a, bs, prev)
    decreases bs
  {
    if bs != [] {
      TiledFrame(mem, mem', a + HDR + bs[0].size, bs[1..], HDR + bs[0].size);
    }
  }

  /** Only the first tag says what came before. */
  lemma TiledRetag(mem: Headers, mem': Headers, a: nat, bs: seq<Block>, prev: nat, prev': nat)
    requires Tiled(mem, a, bs, prev)
    requires forall p :: a < p < a + Span(HDR, bs) && p in mem ==> p in mem' && SameTag(mem'[p], mem[p])
    requires bs != [] ==> a in mem' && SameTag(mem'[a], mem[a].(prevSize := prev'))
    ensures Tiled(mem', a, bs, prev')
  {
    if bs != [] {
      TiledFrame(mem, mem', a + HDR + bs[0].size, bs[1..], HDR + bs[0].size);
    }
  }

  /** Rewriting the tags of some blocks, and the back tag of the block after them,
      keeps the rest. */
  lemma TiledReplace(mem: Headers, mem': Headers, a: nat, x: seq<Block>, y: seq<Block>, y': seq<Block>, z: seq<Block>)
    requires Tiled(mem, a, x + y + z, 0) && Span(HDR, y) == Span(HDR, y') && y != [] && y' != []
    requires var b, e := a + Span(HDR, x), a + Span(HDR, x) + Span(HDR, y);
      && (forall p :: p in mem && (p < b || e < p) ==> p in mem' && SameTag(mem'[p], mem[p]))
      && Tiled(mem', b, y', LastSize(x, 0))
      && (z != [] ==> e in mem && e in mem' && SameTag(mem'[e], mem[e].(prevSize := LastSize(y', 0))))
    ensures Tiled(mem', a, x + y' + z, 0)
  {
    hide Tiled, Span;
    SpanConcat(HDR, x, y);
    SpanConcat(HDR, x, y');
    TiledConcat(mem, a, x + y, z, 0);
    TiledConcat(mem, a, x, y, 0);
    TiledFrame(mem, mem', a, x, 0);
    TiledRetag(mem, mem', a + Span(HDR, x + y), z, LastSize(x + y, 0), LastSize(y', 0));
    TiledConcat(mem', a, x, y', 0);
    assert LastSize(x + y', 0) == LastSize(y', 0) == LastSize(y', LastSize(x, 0));
    TiledConcat(mem', a, x + y', z, 0);
  }

  /** The tag of block i. */
  lemma TagAt(mem: Headers, a: nat, bs: seq<Block>, i: nat)
    requires Tiled(mem, a, bs, 0) && i < |bs|
    ensures var p := a + Span(HDR, bs[..i]);
      && p in mem && mem[p].size == HDR + bs[i].size && mem[p].free == bs[i].free
      && mem[p].prevSize == (if i == 0 then 0 else HDR + bs[i - 1].size)
      && Span(HDR, bs[..i + 1]) == Span(HDR, bs[..i]) + HDR + bs[i].size <= Span(HDR, bs)
  {
    var x, y := bs[..i], bs[i..];
    assert bs == x + y;
    TiledConcat(mem, a, x, y, 0);
    assert bs[..i + 1] == x + [bs[i]];
    SpanConcat(HDR, x, [bs[i]]);
    LiveOne(HDR, a, bs[i]);
    SpanPrefix(HDR, bs, i);
  }

  // ----- addresses of blocks -----

  /** Addresses of the blocks that are free, or that are not. */
  ghost function Heads(a: nat, bs: seq<Block>, free: bool): set<nat>
    decreases bs
  {
    if bs == [] then {} else (if bs[0].free == free then {a} else {}) + Heads(a + HDR + bs[0].size, bs[1..], free)
  }

  lemma {:induction false} HeadsConcat(a: nat, x: seq<Block>, y: seq<Block>, free: bool)
    ensures Heads(a, x + y, free) == Heads(a, x, free) + Heads(a + Span(HDR, x), y, free)
    decreases x
  {
    if x == [] {
      assert x + y == y;
    } else {
      assert (x + y)[1..] == x[1..] + y && (x + y)[0] == x[0];
      HeadsConcat(a + HDR + x[0].size, x[1..], y, free);
    }
  }

  lemma {:induction false} HeadsRange(a: nat, bs: seq<Block>, free: bool)
    ensures forall p :: p in Heads(a, bs, free) ==> a <= p && p + HDR <= a + Span(HDR, bs)
    decreases bs
  {
    if bs != [] {
      HeadsRange(a + HDR + bs[0].size, bs[1..], free);
    }
  }

  lemma {:induction false} HeadIndex(a: nat, bs: seq<Block>, free: bool, p: nat) returns (i: nat)
    requires p in Heads(a, bs, free)
    ensures i < |bs| && bs[i].free == free && p == a + Span(HDR, bs[..i])
    decreases bs
  {
    if p == a && bs[0].free == free {
      assert bs[..0] == [];
      i := 0;
    } else {
      var j := HeadIndex(a + HDR + bs[0].size, bs[1..], free, p);
      i := j + 1;
      assert bs[..i] == [bs[0]] + bs[1..][..j];
      SpanConcat(HDR, [bs[0]], bs[1..][..j]);
      LiveOne(HDR, a, bs[0]);
    }
  }

  lemma HeadOne(a: nat, b: Block, free: bool)
    ensures Heads(a, [b], free) == if b.free == free then {a} else {}
  {
  }

  // ----- the changes to a block sequence -----

  ghost function Mark(bs: seq<Block>, i: nat, free: bool): (r: seq<Block>)
    requires i < |bs|
    ensures |r| == |bs|
  {
    bs[..i] + [Block(bs[i].size, free)] + bs[i + 1..]
  }

  lemma MarkTiled(mem: Headers, a: nat, bs: seq<Block>, i: nat, free: bool, next: nat)
    requires Tiled(mem, a, bs, 0) && i < |bs|
    ensures a + Span(HDR, bs[..i]) in mem
    ensures var p := a + Span(HDR, bs[..i]);
      Tiled(mem[p := mem[p].(free := free, next := next)], a, Mark(bs, i, free), 0)
    ensures Span(HDR, Mark(bs, i, free)) == Span(HDR, bs)
  {
    hide Tiled, Span;
    TagAt(mem, a, bs, i);
    var x, y, y', z := bs[..i], [bs[i]], [Block(bs[i].size, free)], bs[i + 1..];
    var p := a + Span(HDR, x);
    var mem' := mem[p := mem[p].(free := free, next := next)];
    assert bs == x + y + z;
    LiveOne(HDR, a, bs[i]);
    LiveOne(HDR, a, y'[0]);
    TiledOne(mem', p, y'[0], LastSize(x, 0));
    Replaced(HDR, a, x, y, y', z);
    if z != [] {
      TagAt(mem, a, bs, i + 1);
    }
    TiledReplace(mem, mem', a, x, y, y', z);
  }

  lemma TiledOne(mem: Headers, a: nat, b: Block, prev: nat)
    ensures Tiled(mem, a, [b], prev) <==> a in mem && SameTag(mem[a], Header(HDR + b.size, prev, 0, b.free))
  {
  }

  lemma TiledTwo(mem: Headers, a: nat, b: Block, c: Block, prev: nat)
    ensures Tiled(mem, a, [b, c], prev) <==>
      && a in mem && SameTag(mem[a], Header(HDR + b.size, prev, 0, b.free))
      && a + HDR + b.size in mem && SameTag(mem[a + HDR + b.size], Header(HDR + c.size, HDR + b.size, 0, c.free))
  {
    assert [b, c][1..] == [c];
    TiledOne(mem, a + HDR + b.size, c, HDR + b.size);
  }

  /** How replacing blocks changes the addresses. */
  lemma HeadsReplaced(a: nat, x: seq<Block>, y: seq<Block>, y': seq<Block>, z: seq<Block>, free: bool)
    requires Span(HDR, y) == Span(HDR, y')
    ensures var b, e := a + Span(HDR, x), a + Span(HDR, x) + Span(HDR, y);
      && Heads(a, x + y + z, free) == Heads(a, x, free) + Heads(b, y, free) + Heads(e, z, free)
      && Heads(a, x + y' + z, free) == Heads(a, x, free) + Heads(b, y', free) + Heads(e, z, free)
      && (forall p :: p in Heads(a, x, free) ==> p + HDR <= b) && (forall p :: p in Heads(e, z, free) ==> e <= p)
  {
    hide Heads, Span;
    SpanConcat(HDR, x, y);
    SpanConcat(HDR, x, y');
    HeadsConcat(a, x + y, z, free);
    HeadsConcat(a, x, y, free);
    HeadsConcat(a, x + y', z, free);
    HeadsConcat(a, x, y', free);
    HeadsRange(a, x, free);
    HeadsRange(a + Span(HDR, x) + Span(HDR, y), z, free);
  }

  lemma MarkHeads(a: nat, bs: seq<Block>, i: nat, free: bool, kind: bool)
    requires i < |bs|
    ensures var p := a + Span(HDR, bs[..i]);
      && (p in Heads(a, bs, kind) <==> bs[i].free == kind)
      && Heads(a, Mark(bs, i, free), kind) == if free == kind then
        Heads(a, bs, kind) + {p} else Heads(a, bs, kind) - {p}
  {
    hide Heads, Span;
    var x, y, y', z := bs[..i], [bs[i]], [Block(bs[i].size, free)], bs[i + 1..];
    assert bs == x + y + z;
    LiveOne(HDR, a, bs[i]);
    LiveOne(HDR, a, y'[0]);
    HeadsReplaced(a, x, y, y', z, kind);
    HeadOne(a + Span(HDR, x), y[0], kind);
    HeadOne(a + Span(HDR, x), y'[0], kind);
  }

  lemma JoinTiled(mem: Headers, mem': Headers, a: nat, bs: seq<Block>, i: nat)
    requires Tiled(mem, a, bs, 0) && i + 1 < |bs|
    requires var p := a + Span(HDR, bs[..i]); var n := HDR + bs[i].size + HDR + bs[i + 1].size;
      && p in mem && p in mem' && SameTag(mem'[p], mem[p].(size := n))
      && (forall q :: q in mem && q != p && q != p + n ==> q in mem' && SameTag(mem'[q], mem[q]))
      && (i + 2 < |bs| ==> p + n in mem && p + n in mem' && SameTag(mem'[p + n], mem[p + n].(prevSize := n)))
    ensures Tiled(mem', a, Joined(HDR, bs, i), 0) && Span(HDR, Joined(HDR, bs, i)) == Span(HDR, bs)
  {
    hide Tiled, Span;
    TagAt(mem, a, bs, i);
    var x, y, z := bs[..i], [bs[i], bs[i + 1]], bs[i + 2..];
    var y' := [Block(bs[i].size + HDR + bs[i + 1].size, bs[i].free)];
    assert bs == x + y + z;
    LiveOne(HDR, a, y'[0]);
    LiveTwo(HDR, a, y[0], y[1]);
    TiledOne(mem', a + Span(HDR, x), y'[0], LastSize(x, 0));
    Replaced(HDR, a, x, y, y', z);
    TiledReplace(mem, mem', a, x, y, y', z);
  }

  lemma JoinHeads(a: nat, bs: seq<Block>, i: nat)
    requires i + 1 < |bs| && !bs[i + 1].free
    ensures Heads(a, Joined(HDR, bs, i), true) == Heads(a, bs, true) &&
      Heads(a, Joined(HDR, bs, i), false) <= Heads(a, bs, false)
  {
    hide Heads, Span;
    var x, y, z := bs[..i], [bs[i], bs[i + 1]], bs[i + 2..];
    var y' := [Block(bs[i].size + HDR + bs[i + 1].size, bs[i].free)];
    assert bs == x + y + z;
    LiveOne(HDR, a, y'[0]);
    LiveTwo(HDR, a, y[0], y[1]);
    HeadsReplaced(a, x, y, y', z, true);
    HeadsReplaced(a, x, y, y', z, false);
    HeadTwo(a + Span(HDR, x), y[0], y[1], true);
    HeadTwo(a + Span(HDR, x), y[0], y[1], false);
    HeadOne(a + Span(HDR, x), y'[0], true);
    HeadOne(a + Span(HDR, x), y'[0], false);
  }

  lemma HeadTwo(a: nat, b: Block, c: Block, free: bool)
    ensures Heads(a, [b, c], free) ==
      (if b.free == free then {a} else {}) + (if c.free == free then {a + HDR + b.size} else {})
  {
    assert [b, c][1..] == [c];
    HeadOne(a + HDR + b.size, c, free);
  }

  lemma SplitTiled(mem: Headers, mem': Headers, a: nat, bs: seq<Block>, i: nat, n: nat)
    requires Tiled(mem, a, bs, 0) && i < |bs| && n + HDR <= bs[i].size && !bs[i].free
    requires var p := a + Span(HDR, bs[..i]); var t := p + HDR + n; var e := p + HDR + bs[i].size;
      && p in mem && p in mem' && SameTag(mem'[p], mem[p].(size := HDR + n))
      && t in mem' && SameTag(mem'[t], Header(bs[i].size - n, HDR + n, 0, true))
      && (forall q :: q in mem && q != p && q != t && q != e ==> q in mem' && SameTag(mem'[q], mem[q]))
      && (i + 1 < |bs| ==> e in mem && e in mem' && SameTag(mem'[e], mem[e].(prevSize := bs[i].size - n)))
    ensures Tiled(mem', a, Split(HDR, bs, i, n), 0) && Span(HDR, Split(HDR, bs, i, n)) == Span(HDR, bs)
  {
    hide Tiled, Span;
    TagAt(mem, a, bs, i);
    var x, y, z := bs[..i], [bs[i]], bs[i + 1..];
    var y' := [Block(n, false), Block(bs[i].size - n - HDR, true)];
    assert bs == x + y + z;
    LiveOne(HDR, a, bs[i]);
    LiveTwo(HDR, a, y'[0], y'[1]);
    TiledTwo(mem', a + Span(HDR, x), y'[0], y'[1], LastSize(x, 0));
    Replaced(HDR, a, x, y, y', z);
    TiledReplace(mem, mem', a, x, y, y', z);
  }

  lemma SplitHeads(a: nat, bs: seq<Block>, i: nat, n: nat)
    requires i < |bs| && n + HDR <= bs[i].size && !bs[i].free
    ensures var t := a + Span(HDR, bs[..i]) + HDR + n;
      && t !in Heads(a, bs, true) && Heads(a, Split(HDR, bs, i, n), true) == Heads(a, bs, true) + {t}
      && Heads(a, Split(HDR, bs, i, n), false) == Heads(a, bs, false)
  {
    hide Heads, Span;
    var x, y, z := bs[..i], [bs[i]], bs[i + 1..];
    var y' := [Block(n, false), Block(bs[i].size - n - HDR, true)];
    assert bs == x + y + z;
    LiveOne(HDR, a, bs[i]);
    LiveTwo(HDR, a, y'[0], y'[1]);
    HeadsReplaced(a, x, y, y', z, true);
    HeadsReplaced(a, x, y, y', z, false);
    HeadTwo(a + Span(HDR, x), y'[0], y'[1], true);
    HeadTwo(a + Span(HDR, x), y'[0], y'[1], false);
    HeadOne(a + Span(HDR, x), y[0], true);
    HeadOne(a + Span(HDR, x), y[0], false);
  }

  // ----- the free list -----

  ghost function Nth(f: seq<nat>, k: nat): nat { if k < |f| then f[k] else 0 }

  /** The list from `head` visits exactly f, in order, and ends. */
  ghost predicate Listed(mem: Headers, head: nat, f: seq<nat>) {
    && head == Nth(f, 0) && Distinct(f)
    && forall k: nat :: k < |f| ==> f[k] != 0 && f[k] in mem && mem[f[k]].next == Nth(f, k + 1)
  }

  ghost function Without(f: seq<nat>, k: nat): seq<nat>
    requires k < |f|
  {
    f[..k] + f[k + 1..]
  }

  lemma ListedFrame(mem: Headers, mem': Headers, head: nat, f: seq<nat>)
    requires Listed(mem, head, f)
    requires forall p :: p in f && p in mem ==> p in mem' && mem'[p].next == mem[p].next
    ensures Listed(mem', head, f)
  {
  }

  lemma ListedInsert(mem: Headers, mem': Headers, head: nat, f: seq<nat>, b: nat)
    requires Listed(mem, head, f) && b !in f && b != 0 && b in mem' && mem'[b].next == head
    requires forall p :: p in mem && p != b ==> p in mem' && mem'[p].next == mem[p].next
    ensures Listed(mem', b, [b] + f)
  {
  }

  /** Unlinking entry k: redirect the head, or the entry before it. */
  lemma ListedRemove(mem: Headers, mem': Headers, head: nat, f: seq<nat>, k: nat)
    requires Listed(mem, head, f) && k < |f|
    requires k > 0 ==> f[k - 1] in mem' && mem'[f[k - 1]].next == Nth(f, k + 1)
    requires forall p :: p in mem && (k == 0 || p != f[k - 1]) ==> p in mem' && mem'[p].next == mem[p].next
    ensures Listed(mem', if k == 0 then Nth(f, 1) else head, Without(f, k))
  {
    hide Distinct;
    WithoutAt(f, k);
    var g := Without(f, k);
    forall j: nat | j < |g| ensures g[j] != 0 && g[j] in mem' && mem'[g[j]].next == Nth(g, j + 1) {
      var i := if j < k then j else j + 1;
      ListStep(mem, head, f, i);
      if k > 0 {
        ListStep(mem, head, f, k - 1);
      }
    }
  }

  lemma WithoutAt(f: seq<nat>, k: nat)
    requires k < |f| && Distinct(f)
    ensures |Without(f, k)| == |f| - 1 && Distinct(Without(f, k))
    ensures forall j :: 0 <= j < |f| - 1 ==> Without(f, k)[j] == f[if j < k then j else j + 1]
  {
  }

  lemma WithoutSet(f: seq<nat>, k: nat)
    requires k < |f| && Distinct(f)
    ensures forall p :: p in Without(f, k) <==> p in f && p != f[k]
  {
    var g := Without(f, k);
    forall p | p in f && p != f[k] ensures p in g {
      var j :| 0 <= j < |f| && f[j] == p;
      assert p == g[if j < k then j else j - 1];
    }
  }

  // ----- bytes that are not headers -----

  type Data = map<nat, byte>

  ghost predicate SameByte(d: Data, d': Data, x: nat) {
    (x in d' <==> x in d) && (x in d ==> d'[x] == d[x])
  }

  ghost predicate InHeader(hs: set<nat>, x: nat) { exists p :: p in hs && p <= x < p + HDR }

  /** Only bytes under the given headers may have changed. */
  ghost predicate OnlyHeads(d: Data, d': Data, hs: set<nat>) {
    forall x: nat :: !InHeader(hs, x) ==> SameByte(d, d', x)
  }

  lemma OnlyHeadsTrans(d: Data, d': Data, d'': Data, hs: set<nat>)
    requires OnlyHeads(d, d', hs) && OnlyHeads(d', d'', hs)
    ensures OnlyHeads(d, d'', hs)
  {
  }

  ghost function AllHeads(a: nat, bs: seq<Block>): set<nat> { Heads(a, bs, true) + Heads(a, bs, false) }

  /** No payload byte lies under a header. */
  lemma {:induction false} PayloadApart(a: nat, bs: seq<Block>, q: nat, x: nat)
    requires q in Live(HDR, a, bs) && q <= x < q + Live(HDR, a, bs)[q]
    ensures !InHeader(AllHeads(a, bs), x)
    decreases bs
  {
    var a', rest := a + HDR + bs[0].size, bs[1..];
    HeadsRange(a', rest, true);
    HeadsRange(a', rest, false);
    LiveRange(HDR, a', rest);
    if q in Live(HDR, a', rest) {
      PayloadApart(a', rest, q, x);
    }
    forall p | p in AllHeads(a, bs) ensures !(p <= x < p + HDR) {
      if p in AllHeads(a', rest) && q in Live(HDR, a', rest) {
        assert !InHeader(AllHeads(a', rest), x);
      }
    }
  }

  // ----- the allocator -----

  function Clobbered(d: Data, a: nat): Data { map x | x in d && !(a <= x < a + HDR) :: d[x] }

  class Arena {
    var mem: Headers
    var data: Data
    var freeHead: nat
    var arenaStart: nat
    var arenaEnd: nat
    var brk: nat
    /** How many bytes the kernel lets the break move away from its start. */
    var limit: nat
    const base: nat
    ghost var blocks: seq<Block>
    ghost var list: seq<nat>

    ghost predicate Tags() reads this { Tiled(mem, arenaStart, blocks, 0) }

    ghost predicate List() reads this { Listed(mem, freeHead, list) }

    /** The free list holds exactly the free blocks. */
    ghost predicate Agree() reads this { forall p :: p in list <==> p in Heads(arenaStart, blocks, true) }

    /** Write a header; the bytes under it are no longer data. */
    method PutHeader(a: nat, h: Header, ghost hs: set<nat>)
      requires a in hs
      modifies this`mem, this`data
      ensures mem == old(mem)[a := h] && OnlyHeads(old(data), data, hs)
    {
      mem := mem[a := h];
      data := Clobbered(data, a);
      assert forall x: nat :: !InHeader(hs, x) ==> !(a <= x < a + HDR);
    }

    method FreelistInsert(b: nat, ghost i: nat, ghost hs: set<nat>)
      requires Tags() && List() && i < |blocks| && b == arenaStart + Span(HDR, blocks[..i]) && b != 0 && b !in list &&
        b in hs
      modifies this`mem, this`data, this`freeHead, this`blocks, this`list
      ensures Tags() && List() && blocks == Mark(old(blocks), i, true) && list == [b] + old(list)
      ensures Span(HDR, blocks) == Span(HDR, old(blocks)) && OnlyHeads(old(data), data, hs)
    {
      hide Span, Tiled, Distinct, OnlyHeads;
      ghost var m0 := mem;
      MarkTiled(mem, arenaStart, blocks, i, true, freeHead);
      PutHeader(b, mem[b].(free := true, next := freeHead), hs);
      ListedInsert(m0, mem, freeHead, list, b);
      freeHead := b;
      blocks := Mark(blocks, i, true);
      list := [b] + list;
    }

    /** Everything but who owns the break: tags, list and bounds agree. */
    ghost predicate Core()
      reads this
    {
      && arenaStart != 0 && blocks != [] && arenaEnd == arenaStart + Span(HDR, blocks) && Span(HDR, blocks) < W32
      && Tags() && List() && Agree()
    }

    /** The block after this one, or 0. */
    method NextBlock(b: nat, ghost i: nat) returns (p: nat)
      requires Tags() && arenaEnd == arenaStart + Span(HDR, blocks) && i < |blocks| &&
        b == arenaStart + Span(HDR, blocks[..i])
      ensures p == if i + 1 < |blocks| then arenaStart + Span(HDR, blocks[..i + 1]) else 0
    {
      hide Span, Tiled;
      TagAt(mem, arenaStart, blocks, i);
      p := b + mem[b].size;
      if i + 1 < |blocks| {
        TagAt(mem, arenaStart, blocks, i + 1);
      } else {
        assert blocks[..i + 1] == blocks;
      }
      return if p < arenaEnd then p else 0;
    }

    /** Block i, not in the list or not, swallows the used block after it. */
    method Absorb(b: nat, next: nat, ghost i: nat, ghost hs: set<nat>)
      requires Core() && i + 1 < |blocks| && !blocks[i + 1].free
      requires b == arenaStart + Span(HDR, blocks[..i]) && next == arenaStart + Span(HDR, blocks[..i + 1])
      requires AllHeads(arenaStart, blocks) <= hs
      modifies this`mem, this`data, this`blocks
      ensures Core() && blocks == Joined(HDR, old(blocks), i)
      ensures AllHeads(arenaStart, blocks) <= hs && OnlyHeads(old(data), data, hs)
    {
      hide Span, Tiled, OnlyHeads, Heads, Listed, Add32, Joined;
      ghost var m0, d0, bs, js := mem, data, blocks, Joined(HDR, blocks, i);
      TagAt(mem, arenaStart, bs, i);
      TagAt(mem, arenaStart, bs, i + 1);
      InHeads(arenaStart, bs, i);
      JoinHeads(arenaStart, bs, i);
      JoinedAt(bs, i);
      PutHeader(b, mem[b].(size := Add32(mem[b].size, mem[next].size)), hs);
      ghost var m1, d1 := mem, data;
      var after := b + mem[b].size;
      if after < arenaEnd {
        AfterTwo(m0, arenaStart, bs, i);
        InHeads(arenaStart, bs, i + 2);
        PutHeader(after, mem[after].(prevSize := mem[b].size), hs);
        OnlyHeadsTrans(d0, d1, data, hs);
      } else {
        LastTwo(m0, arenaStart, bs, i);
      }
      JoinTiled(m0, mem, arenaStart, bs, i);
      ListedFrame(m0, mem, freeHead, list);
      blocks := js;
    }

    /** Redirect what points to entry k of the list past it. */
    method Unlink(before: nat, next: nat, ghost k: nat, ghost hs: set<nat>)
      requires Tags() && List() && k < |list| && next == Nth(list, k + 1)
      requires before == (if k == 0 then 0 else list[k - 1]) && (k > 0 ==> before in hs)
      modifies this`mem, this`data, this`freeHead, this`list
      ensures Tags() && List() && list == Without(old(list), k) && OnlyHeads(old(data), data, hs)
      ensures forall p :: p in old(mem) ==> p in mem && SameTag(mem[p], old(mem)[p])
    {
      hide Span, Tiled, OnlyHeads;
      ghost var m0 := mem;
      if before == 0 {
        ListedRemove(mem, mem, freeHead, list, 0);
        OnlyHeadsSelf(data, hs);
        freeHead := next;
      } else {
        PutHeader(before, mem[before].(next := next), hs);
        TiledFrame(m0, mem, arenaStart, blocks, 0);
        ListedRemove(m0, mem, freeHead, list, k);
      }
      list := Without(list, k);
    }

    /** Put a used block on the list. */
    method Release(b: nat, ghost i: nat, ghost hs: set<nat>)
      requires Core() && i < |blocks| && !blocks[i].free && b == arenaStart + Span(HDR, blocks[..i])
      requires AllHeads(arenaStart, blocks) <= hs
      modifies this`mem, this`data, this`freeHead, this`blocks, this`list
      ensures Core() && blocks == Mark(old(blocks), i, true)
      ensures AllHeads(arenaStart, blocks) <= hs && OnlyHeads(old(data), data, hs)
    {
      hide Span, Tiled, OnlyHeads, Heads, Listed, Mark;
      MarkHeads(arenaStart, blocks, i, true, true);
      MarkHeads(arenaStart, blocks, i, true, false);
      MarkPrefix(blocks, i, true, 0);
      FreelistInsert(b, i, hs);
    }

    /** Take a free block off the list. */
    method Withdraw(b: nat, ghost i: nat, ghost hs: set<nat>)
      requires Core() && i < |blocks| && blocks[i].free && b == arenaStart + Span(HDR, blocks[..i])
      requires AllHeads(arenaStart, blocks) <= hs
      modifies this`mem, this`data, this`freeHead, this`blocks, this`list
      ensures Core() && blocks == Mark(old(blocks), i, false)
      ensures AllHeads(arenaStart, blocks) <= hs && OnlyHeads(old(data), data, hs)
    {
      hide Span, Tiled, OnlyHeads, Heads, Listed, Mark;
      MarkHeads(arenaStart, blocks, i, false, true);
      MarkHeads(arenaStart, blocks, i, false, false);
      MarkPrefix(blocks, i, false, 0);
      FreelistRemove(b, i, hs);
    }

    /** Merge a free block with a free successor. */
    method MergeNext(b: nat, ghost i: nat, ghost hs: set<nat>)
      requires Core() && i < |blocks| && blocks[i].free && b == arenaStart + Span(HDR, blocks[..i])
      requires AllHeads(arenaStart, blocks) <= hs
      modifies this`mem, this`data, this`freeHead, this`blocks, this`list
      ensures Core() && blocks == MergedNext(HDR, old(blocks), i)
      ensures AllHeads(arenaStart, blocks) <= hs && OnlyHeads(old(data), data, hs)
    {
      hide Span, Tiled, OnlyHeads, Heads, Listed, Mark, Joined;
      OnlyHeadsSelf(data, hs);
      var after := NextBlock(b, i);
      if after == 0 {
        return;
      }
      TagAt(mem, arenaStart, blocks, i + 1);
      if mem[after].free {
        ghost var bs, d0 := blocks, data;
        JoinedSeq(bs, i);
        MarkPrefix(bs, i + 1, false, i);
        MarkPrefix(bs, i + 1, false, i + 1);
        MarkedAt(bs, i + 1, false);
        Withdraw(after, i + 1, hs);
        ghost var d1 := data;
        Absorb(b, after, i, hs);
        OnlyHeadsTrans(d0, d1, data, hs);
      }
    }

    /** Merge a free block with a free predecessor. */
    method MergePrevious(b: nat, ghost i: nat, ghost hs: set<nat>)
      requires Core() && i < |blocks| && blocks[i].free && b == arenaStart + Span(HDR, blocks[..i])
      requires AllHeads(arenaStart, blocks) <= hs
      modifies this`mem, this`data, this`freeHead, this`blocks, this`list
      ensures Core() && blocks == MergedPrevious(HDR, old(blocks), i)
      ensures AllHeads(arenaStart, blocks) <= hs && OnlyHeads(old(data), data, hs)
    {
      hide Span, Tiled, OnlyHeads, Heads, Listed, Mark, Joined;
      OnlyHeadsSelf(data, hs);
      TagAt(mem, arenaStart, blocks, i);
      if mem[b].prevSize != 0 {
        TagAt(mem, arenaStart, blocks, i - 1);
        var prev := b - mem[b].prevSize;
        if mem[prev].free {
          Fuse(prev, b, i, hs);
        }
      }
    }

    /** The steps of a merge with the previous block. */
    method Fuse(prev: nat, b: nat, ghost i: nat, ghost hs: set<nat>)
      requires Core() && 0 < i < |blocks| && blocks[i].free && blocks[i - 1].free
      requires b == arenaStart + Span(HDR, blocks[..i]) && prev == arenaStart + Span(HDR, blocks[..i - 1])
      requires AllHeads(arenaStart, blocks) <= hs
      modifies this`mem, this`data, this`freeHead, this`blocks, this`list
      ensures Core() && blocks == Joined(HDR, old(blocks), i - 1)
      ensures AllHeads(arenaStart, blocks) <= hs && OnlyHeads(old(data), data, hs)
    {
      hide Span, Tiled, OnlyHeads, Heads, Listed, Mark, Joined;
      ghost var bs, d0 := blocks, data;
      JoinedSeq(bs, i - 1);
      MarkPrefix(bs, i, false, i);
      MarkPrefix(bs, i, false, i - 1);
      MarkedAt(bs, i, false);
      Withdraw(b, i, hs);
      ghost var bs1, d1 := blocks, data;
      MarkPrefix(bs1, i - 1, false, i);
      MarkPrefix(bs1, i - 1, false, i - 1);
      MarkedAt(bs1, i - 1, false);
      Withdraw(prev, i - 1, hs);
      OnlyHeadsTrans(d0, d1, data, hs);
      ghost var bs2, d2 := blocks, data;
      Absorb(prev, b, i - 1, hs);
      OnlyHeadsTrans(d0, d2, data, hs);
      JoinedAt(bs2, i - 1);
      ghost var d3 := data;
      Release(prev, i - 1, hs);
      OnlyHeadsTrans(d0, d3, data, hs);
    }

    /** Give the part of a used block beyond `needed` bytes back, if it is worth a
        block of its own. */
    method MaybeSplit(b: nat, needed: nat, ghost i: nat)
      requires Core() && i < |blocks| && !blocks[i].free && b == arenaStart + Span(HDR, blocks[..i])
      requires HDR < needed <= HDR + blocks[i].size
      modifies this`mem, this`data, this`freeHead, this`blocks, this`list
      ensures Core() && OnlyHeads(old(data), data, AllHeads(arenaStart, blocks))
      ensures blocks == Trimmed(old(blocks), i, needed - HDR)
    {
      hide Span, Tiled, OnlyHeads, Heads, Listed, Mark, Split;
      TagAt(mem, arenaStart, blocks, i);
      if mem[b].size < needed + MIN_BLOCK {
        OnlyHeadsSelf(data, AllHeads(arenaStart, blocks));
        return;
      }
      ghost var d0, n := data, needed - HDR;
      ghost var bs, hs := Split(HDR, blocks, i, n), AllHeads(arenaStart, Split(HDR, blocks, i, n));
      SplitHeads(arenaStart, blocks, i, n);
      SplitAt(blocks, i, n);
      WriteTail(b, needed, i);
      ghost var d1 := data;
      FreelistInsert(b + needed, i + 1, hs);
      OnlyHeadsTrans(d0, d1, data, hs);
    }

    method WriteTail(b: nat, needed: nat, ghost i: nat)
      requires Core() && i < |blocks| && !blocks[i].free && b == arenaStart + Span(HDR, blocks[..i])
      requires HDR < needed && needed + MIN_BLOCK <= HDR + blocks[i].size
      modifies this`mem, this`data, this`blocks
      ensures blocks == Split(HDR, old(blocks), i, needed - HDR) && Tags() && List() &&
        Span(HDR, blocks) == Span(HDR, old(blocks))
      ensures OnlyHeads(old(data), data, AllHeads(arenaStart, blocks))
    {
      hide Span, Tiled, OnlyHeads, Heads, Listed, Split;
      ghost var d0, m0, bs0, n := data, mem, blocks, needed - HDR;
      ghost var bs := Split(HDR, blocks, i, n);
      ghost var hs := AllHeads(arenaStart, bs);
      TagAt(mem, arenaStart, blocks, i);
      SplitHeads(arenaStart, blocks, i, n);
      InHeads(arenaStart, blocks, i);
      var tail, size := b + needed, mem[b].size;
      PutHeader(tail, Header(size - needed, needed, 0, true), hs);
      ghost var d1 := data;
      PutHeader(b, mem[b].(size := needed), hs);
      OnlyHeadsTrans(d0, d1, data, hs);
      ghost var d2 := data;
      var after := tail + mem[tail].size;
      EndOrNext(m0, arenaStart, bs0, i);
      if after < arenaEnd {
        InHeads(arenaStart, bs0, i + 1);
        PutHeader(after, mem[after].(prevSize := mem[tail].size), hs);
        OnlyHeadsTrans(d0, d2, data, hs);
      }
      SplitTiled(m0, mem, arenaStart, bs0, i, n);
      NotListed(list, arenaStart, bs0, tail);
      ListedFrame(m0, mem, freeHead, list);
      blocks := bs;
    }

    /** Unlink entry k of the list, a free block, and mark it used. */
    method Take(before: nat, b: nat, ghost k: nat) returns (ghost i: nat)
      requires Core() && k < |list| && b == list[k] && before == (if k == 0 then 0 else list[k - 1])
      modifies this`mem, this`data, this`freeHead, this`blocks, this`list
      ensures Core() && i < |old(blocks)| && old(blocks)[i].free && blocks == Mark(old(blocks), i, false)
      ensures b == arenaStart + Span(HDR, old(blocks)[..i])
      ensures AllHeads(arenaStart, blocks) == AllHeads(arenaStart, old(blocks))
      ensures OnlyHeads(old(data), data, AllHeads(arenaStart, blocks))
    {
      hide Span, Tiled, OnlyHeads, Heads, Listed, Without, Mark;
      ghost var hs, d0 := AllHeads(arenaStart, blocks), data;
      i := HeadIndex(arenaStart, blocks, true, b);
      ListStep(mem, freeHead, list, k);
      WithoutSet(list, k);
      MarkHeads(arenaStart, blocks, i, false, true);
      MarkHeads(arenaStart, blocks, i, false, false);
      MarkPrefix(blocks, i, false, 0);
      Unlink(before, mem[b].next, k, hs);
      ghost var m1, d1 := mem, data;
      MarkTiled(mem, arenaStart, blocks, i, false, mem[b].next);
      PutHeader(b, mem[b].(free := false), hs);
      ListedFrame(m1, mem, freeHead, list);
      OnlyHeadsTrans(d0, d1, data, hs);
      blocks := Mark(blocks, i, false);
    }

    /** First fit along the free list. */
    method Scan(needed: nat) returns (p: nat)
      requires Core() && HDR < needed
      modifies this`mem, this`data, this`freeHead, this`blocks, this`list
      ensures Core() && AllHeads(arenaStart, old(blocks)) <= AllHeads(arenaStart, blocks)
      ensures OnlyHeads(old(data), data, AllHeads(arenaStart, blocks))
      ensures p == 0 <==> !HasFit(old(mem), old(list), needed)
      ensures p == 0 ==> blocks == old(blocks) && list == old(list) && mem == old(mem) && data == old(data)
      ensures p != 0 ==> FirstFit(old(mem), old(list), needed, p - HDR)
      ensures p != 0 ==> exists i: nat ::
        && i < |old(blocks)| && old(blocks)[i].free && HDR + old(blocks)[i].size >= needed
        && p == arenaStart + Span(HDR, old(blocks)[..i]) + HDR
        && blocks == Trimmed(Mark(old(blocks), i, false), i, needed - HDR)
    {
      hide Span, Tiled, OnlyHeads, Heads, Listed, Mark, Trimmed;
      OnlyHeadsSelf(data, AllHeads(arenaStart, blocks));
      var b, before := freeHead, 0;
      ghost var k: nat := 0;
      ListHead(mem, freeHead, list);
      while b != 0 && mem[b].size < needed
        invariant k <= |list| && b == Nth(list, k) && (b != 0 ==> b in mem && k < |list|) && (b == 0 ==> k == |list|)
        invariant before == (if k == 0 then 0 else list[k - 1])
        invariant forall j: nat :: j < k ==> list[j] in mem && mem[list[j]].size < needed
        modifies {}
        decreases |list| - k
      {
        ListStep(mem, freeHead, list, k);
        before := b;
        b := mem[b].next;
        k := k + 1;
        if k < |list| {
          ListStep(mem, freeHead, list, k);
        }
      }
      if b == 0 {
        return 0;
      }
      ghost var d0, bs, m0 := data, blocks, mem;
      ghost var i := Take(before, b, k);
      TagAt(m0, arenaStart, bs, i);
      MarkedAt(bs, i, false);
      MarkPrefix(bs, i, false, i);
      ghost var d1, bs1 := data, blocks;
      MaybeSplit(b, needed, i);
      MoreHeads(arenaStart, bs1, i, needed - HDR);
      OnlyHeadsMore(d0, d1, AllHeads(arenaStart, bs1), AllHeads(arenaStart, blocks));
      OnlyHeadsTrans(d0, d1, data, AllHeads(arenaStart, blocks));
      return b + HDR;
    }

    /** Only this allocator moves the break. Before the first growth there is no
        arena; afterwards it runs from the first break to the current one. */
    ghost predicate Valid()
      reads this
    {
      && 0 < base && base % 8 == 0 && Eights(blocks)
      && (arenaStart == 0 ==>
          brk == base && arenaEnd == 0 && freeHead == 0 && blocks == [] && list == [])
      && (arenaStart != 0 ==> arenaStart == base && arenaEnd == brk && Core())
    }

    ghost function Allocations(): map<nat, nat>
      reads this
    {
      Live(HDR, arenaStart, blocks)
    }

    constructor (base: nat, data: Data)
      requires 0 < base && base % 8 == 0
      ensures Valid() && Allocations() == map[] && this.data == data
    {
      this.base := base;
      this.data := data;
      brk, limit := base, 0;
      arenaStart, arenaEnd, freeHead := 0, 0, 0;
      mem, blocks, list := map[], [], [];
    }

    /** The kernel has no room for so many more bytes; the arena never reaches
        2^32 bytes. */
    ghost predicate Exhausted(delta: nat)
      reads this
    {
      brk + delta - base > limit || brk + delta - base >= W32
    }

    /** Malloc of so many bytes fails: nothing free is large enough and the arena
        cannot grow by enough pages. */
    ghost predicate Refused(nbytes: nat)
      reads this
    {
      nbytes == 0 || (!HasFit(mem, list, Needed(nbytes)) && Exhausted(Pages(Needed(nbytes))))
    }

    /** The old break, or failure. */
    method Sbrk(delta: nat) returns (ok: bool, was: nat)
      modifies this`brk
      ensures was == old(brk) && (ok <==> !old(Exhausted(delta)))
      ensures brk == if ok then old(brk) + delta else old(brk)
    {
      was := brk;
      ok := brk + delta - base <= limit && brk + delta - base < W32;
      if ok {
        brk := brk + delta;
      }
    }

    /** The size of the last block, found by walking the arena. */
    method LastBlockSize() returns (size: nat)
      requires Core()
      ensures size == LastSize(blocks, 0)
    {
      hide Span, Tiled, Listed, Heads;
      var scan, last := arenaStart, arenaStart;
      ghost var i: nat := 0;
      EmptySpan(HDR, blocks);
      TagAt(mem, arenaStart, blocks, 0);
      while scan < arenaEnd
        invariant i <= |blocks| && scan == arenaStart + Span(HDR, blocks[..i])
        invariant last == arenaStart + Span(HDR, blocks[..if i == 0 then 0 else i - 1])
        decreases |blocks| - i
      {
        assert blocks[..|blocks|] == blocks;
        TagAt(mem, arenaStart, blocks, i);
        last := scan;
        scan := scan + mem[scan].size;
        i := i + 1;
      }
      if i < |blocks| {
        TagAt(mem, arenaStart, blocks, i);
        assert false;
      }
      TagAt(mem, arenaStart, blocks, i - 1);
      size := mem[last].size;
    }

    /** Extend the arena by whole pages; the new free block heads the list. */
    method Grow(bytes: nat) returns (b: nat)
      requires Valid() && 0 < bytes && bytes + 4095 < W32
      modifies this`mem, this`data, this`freeHead, this`arenaStart, this`arenaEnd, this`brk, this`blocks, this`list
      ensures Valid()
      ensures b == 0 <==> old(Exhausted(Pages(bytes)))
      ensures b == 0 ==> unchanged(this)
      ensures b != 0 ==>
        && Core() && arenaStart == base && Pages(bytes) > HDR && b == base + Span(HDR, old(blocks))
        && blocks == old(blocks) + [Block(Pages(bytes) - HDR, true)]
        && list == [b] + old(list) && b in mem && mem[b].size >= bytes
        && OnlyHeads(old(data), data, AllHeads(base, blocks))
    {
      hide Span, Tiled, OnlyHeads, Heads, Listed, Pages, Mark;
      PagesFit(bytes);
      var rounded := Pages(bytes);
      var ok, was := Sbrk(rounded);
      if !ok {
        return 0;
      }
      b := was;
      ghost var bs := blocks + [Block(rounded - HDR, true)];
      GrownHeads(base, blocks, rounded - HDR);
      ghost var hs, m0, d0 := AllHeads(base, bs), mem, data;
      var prev := 0;
      if arenaStart != 0 {
        prev := LastBlockSize();
      } else {
        NothingThere(mem, base);
        EmptySpan(HDR, blocks);
        arenaStart := b;
      }
      PutHeader(b, Header(rounded, prev, 0, true), hs);
      arenaEnd := b + rounded;
      GrownTiled(m0, mem, base, blocks, rounded - HDR);
      NotInside(list, base, blocks, b);
      ListedFrame(m0, mem, freeHead, list);
      ghost var d1 := data;
      blocks := bs;
      FreelistInsert(b, |bs| - 1, hs);
      OnlyHeadsTrans(d0, d1, data, hs);
      TagAt(mem, base, blocks, |bs| - 1);
    }

    /** The last part of malloc: scan, grow once if nothing fits, and scan again.
        Termination says that the second scan succeeds. */
    method MallocFor(needed: nat) returns (p: nat)
      requires Valid() && HDR < needed && needed + 4095 < W32 && needed % 8 == 0
      modifies this`mem, this`data, this`freeHead, this`arenaStart, this`arenaEnd, this`brk, this`blocks, this`list
      ensures Valid()
      ensures p == 0 ==> Allocations() == old(Allocations()) && data == old(data)
      ensures p != 0 ==>
        && p !in old(Allocations()) && p in Allocations() && Allocations() == old(Allocations())[p := Allocations()[p]]
        && Allocations()[p] >= needed - HDR && OnlyHeads(old(data), data, AllHeads(arenaStart, blocks))
        && AllHeads(old(arenaStart), old(blocks)) <= AllHeads(arenaStart, blocks)
      ensures p == 0 <==> !HasFit(old(mem), old(list), needed) && old(Exhausted(Pages(needed)))
      ensures HasFit(old(mem), old(list), needed) ==> FirstFit(old(mem), old(list), needed, p - HDR)
      ensures p != 0 && !HasFit(old(mem), old(list), needed) ==> p == base + Span(HDR, old(blocks)) + HDR
      decreases !HasFit(mem, list, needed)
    {
      hide Span, Tiled, OnlyHeads, Heads, Listed, Live, Trimmed, Mark, HasFit, FirstFit, Pages;
      NoFit(mem, needed);
      Nothing(arenaStart);
      Nothing(base);
      if arenaStart != 0 {
        ghost var bs := blocks;
        p := Scan(needed);
        if p != 0 {
          ghost var i: nat :| i < |bs| && bs[i].free && HDR + bs[i].size >= needed &&
            p == arenaStart + Span(HDR, bs[..i]) + HDR
            && blocks == Trimmed(Mark(bs, i, false), i, needed - HDR);
          TakenLive(arenaStart, bs, i, needed - HDR);
          return;
        }
      }
      ghost var d0, bs := data, blocks;
      var grown := Grow(needed);
      if grown == 0 {
        return 0;
      }
      HeadFits(mem, list, needed);
      GrownLive(base, bs, Pages(needed) - HDR);
      GrownHeads(base, bs, Pages(needed) - HDR);
      ghost var d1, hs, m1, list1 := data, AllHeads(base, blocks), mem, list;
      p := MallocFor(needed);
      HeadFirst(m1, list1, needed, p - HDR);
      OnlyHeadsMore(d0, d1, hs, AllHeads(arenaStart, blocks));
      OnlyHeadsTrans(d0, d1, data, AllHeads(arenaStart, blocks));
    }

    /** Allocate at least nbytes, for sizes whose rounding does not wrap. The
        payload is new; no byte of an older one changes. */
    method Malloc(nbytes: nat) returns (p: nat)
      requires Valid() && Bounded(nbytes)
      modifies this`mem, this`data, this`freeHead, this`arenaStart, this`arenaEnd, this`brk, this`blocks, this`list
      ensures Valid() && (nbytes == 0 ==> p == 0) && BytesKept(old(data), data, old(Allocations()))
      ensures p == 0 <==> old(Refused(nbytes))
      ensures p == 0 ==> Allocations() == old(Allocations())
      ensures p != 0 ==>
        && p !in old(Allocations()) && p in Allocations() && Allocations() == old(Allocations())[p := Allocations()[p]]
        && Allocations()[p] >= nbytes && p % 8 == 0
      ensures p != 0 && HasFit(old(mem), old(list), Needed(nbytes)) ==>
        FirstFit(old(mem), old(list), Needed(nbytes), p - HDR)
    {
      hide OnlyHeads, Live, Needed, BytesKept, Core, HasFit, FirstFit, Exhausted;
      KeptSelf(data, Allocations());
      if nbytes == 0 {
        return 0;
      }
      NeededFits(nbytes);
      ghost var d0, live := data, Allocations();
      p := MallocFor(Needed(nbytes));
      if p != 0 {
        LiveEights(arenaStart, blocks);
        assert p in Live(HDR, arenaStart, blocks);
        KeptOutside(d0, data, arenaStart, blocks, live);
      }
    }

    /** Release an allocation and merge it with free neighbours. A second release
        of a block that is still on the list is ignored. */
    method Free(ptr: nat)
      requires Valid()
      requires ptr == 0 || ptr in Allocations() || (ptr >= HDR && ptr - HDR in Heads(arenaStart, blocks, true))
      modifies this`mem, this`data, this`freeHead, this`blocks, this`list
      ensures Valid() && Allocations() == old(Allocations()) - {ptr} && BytesKept(old(data), data, old(Allocations()))
      ensures ptr in old(Allocations()) ==> exists i: nat ::
        i < |old(blocks)| && ptr - HDR == arenaStart + Span(HDR, old(blocks)[..i]) &&
          blocks == Freed(HDR, old(blocks), i)
      ensures ptr !in old(Allocations()) ==> unchanged(this)
    {
      hide Span, Tiled, OnlyHeads, Heads, Listed, Live, Mark, Freed, BytesKept;
      KeptSelf(data, Allocations());
      LiveRange(HDR, arenaStart, blocks);
      Nothing(arenaStart);
      if ptr == 0 {
        assert Allocations() - {ptr} == Allocations();
        return;
      }
      var b := ptr - HDR;
      ghost var i := BlockAt(ptr);
      ghost var bs, d0 := blocks, data;
      if mem[b].free {
        assert Allocations() - {ptr} == Allocations();
        return;
      }
      ghost var hs := AllHeads(arenaStart, blocks);
      FreedLive(HDR, arenaStart, bs, i);
      FreedEights(bs, i);
      FreedSteps(bs, i);
      Release(b, i, hs);
      ghost var d1 := data;
      MergeNext(b, i, hs);
      OnlyHeadsTrans(d0, d1, data, hs);
      ghost var d2 := data;
      MergePrevious(b, i, hs);
      OnlyHeadsTrans(d0, d2, data, hs);
      KeptOutside(d0, data, arenaStart, bs, Live(HDR, arenaStart, bs));
      assert blocks == Freed(HDR, bs, i);
    }

    /** The block of a pointer that was handed out. */
    lemma BlockAt(ptr: nat) returns (i: nat)
      requires Valid() && (ptr in Allocations() || (ptr >= HDR && ptr - HDR in Heads(arenaStart, blocks, true)))
      ensures ptr >= HDR && i < |blocks| && ptr - HDR == arenaStart + Span(HDR, blocks[..i]) && Core()
      ensures ptr - HDR in mem && mem[ptr - HDR].free == blocks[i].free == (ptr !in Allocations())
    {
      hide Span, Tiled, OnlyHeads, Heads, Listed, Live;
      Nothing(arenaStart);
      if ptr in Allocations() {
        i := LiveIndex(HDR, arenaStart, blocks, ptr);
      } else {
        i := HeadIndex(arenaStart, blocks, true, ptr - HDR);
      }
      TagAt(mem, arenaStart, blocks, i);
    }

    /** Grow an allocation: in place if it is large enough already, otherwise the
        bytes move to a new one. On failure the old allocation stays. */
    method Realloc(ptr: nat, nbytes: nat) returns (p: nat)
      requires Valid() && Bounded(nbytes) && (ptr == 0 || ptr in Allocations())
      modifies this`mem, this`data, this`freeHead, this`arenaStart, this`arenaEnd, this`brk, this`blocks, this`list
      ensures Valid() && BytesKept(old(data), data, old(Allocations()) - {ptr})
      ensures ptr != 0 && nbytes == 0 ==> p == 0 && Allocations() == old(Allocations()) - {ptr}
      ensures p == 0 && (ptr == 0 || nbytes > 0) ==>
        Allocations() == old(Allocations()) && BytesKept(old(data), data, old(Allocations()))
      ensures p != 0 ==>
        && p in Allocations() && Allocations()[p] >= nbytes
        && Allocations() == (old(Allocations()) - {ptr})[p := Allocations()[p]]
        && (p == ptr || p !in old(Allocations()))
        && (ptr != 0 ==> Moved(old(data), data, ptr, p, old(Allocations())[ptr]))
      ensures p == 0 <==> nbytes == 0 || ((ptr == 0 || nbytes > old(Allocations())[ptr]) && old(Refused(nbytes)))
      ensures ptr != 0 && 0 < nbytes <= old(Allocations())[ptr] ==> p == ptr && unchanged(this)
    {
      hide Span, Tiled, OnlyHeads, Heads, Listed, Live, BytesKept, Core, HasFit, FirstFit, Exhausted, Needed, Pages;
      if ptr == 0 {
        assert Allocations() - {ptr} == Allocations() by { LiveRange(HDR, arenaStart, blocks); }
        p := Malloc(nbytes);
        return;
      }
      ghost var d0, live := data, Allocations();
      KeptSelf(d0, live);
      KeptLess(d0, d0, live, {ptr});
      if nbytes == 0 {
        Free(ptr);
        KeptLess(d0, data, live, {ptr});
        return 0;
      }
      ghost var i := BlockAt(ptr);
      HowLarge(ptr);
      var current := mem[ptr - HDR].size - HDR;
      if nbytes <= current {
        PutBack(live, ptr);
        return ptr;
      }
      p := Malloc(nbytes);
      if p == 0 {
        KeptLess(d0, data, live, {ptr});
        return;
      }
      MoveTo(ptr, p, current, d0, live);
    }

    lemma HowLarge(ptr: nat)
      requires Valid() && ptr in Allocations()
      ensures ptr >= HDR && ptr - HDR in mem && mem[ptr - HDR].size == HDR + Allocations()[ptr]
    {
      hide Tiled, OnlyHeads, Heads, Listed;
      Nothing(arenaStart);
      var i := LiveIndex(HDR, arenaStart, blocks, ptr);
      TagAt(mem, arenaStart, blocks, i);
      LiveSize(arenaStart, blocks, i);
    }

    method SizeOf(ptr: nat) returns (n: nat)
      requires Valid() && ptr in Allocations()
      ensures n == Allocations()[ptr]
    {
      HowLarge(ptr);
      n := mem[ptr - HDR].size - HDR;
    }

    /** Copy the bytes to the new allocation and release the old one. */
    method MoveTo(ptr: nat, p: nat, n: nat, ghost d0: Data, ghost live: map<nat, nat>)
      requires Valid() && ptr in live && p !in live && live[ptr] == n && p in Allocations() && ptr != 0
      requires Allocations() == live[p := Allocations()[p]] && n <= Allocations()[p] && BytesKept(d0, data, live)
      modifies this`mem, this`data, this`freeHead, this`blocks, this`list
      ensures Valid() && Allocations() == (live - {ptr})[p := old(Allocations())[p]]
      ensures BytesKept(d0, data, live - {ptr}) && Moved(d0, data, ptr, p, n)
    {
      hide Span, Tiled, OnlyHeads, Heads, Listed, Live, BytesKept, Moved, SameOutside;
      ghost var d1, all := data, Allocations();
      Separate(arenaStart, blocks);
      assert p in all && ptr in all && all[ptr] == n;
      data := CopyBytes(data, ptr, p, n);
      ghost var d2 := data;
      Free(ptr);
      DropOld(live, ptr, p, all[p]);
      MovedKept(d0, d1, d2, data, live, all, ptr, p, n);
    }

    method FreelistRemove(b: nat, ghost i: nat, ghost hs: set<nat>)
      requires Tags() && List() && i < |blocks| && b == arenaStart + Span(HDR, blocks[..i]) && b in list
      requires forall p :: p in list ==> p in hs
      modifies this`mem, this`data, this`freeHead, this`blocks, this`list
      ensures Tags() && List() && blocks == Mark(old(blocks), i, false) && Span(HDR, blocks) == Span(HDR, old(blocks))
      ensures forall p :: p in list <==> p in old(list) && p != b
      ensures OnlyHeads(old(data), data, hs)
    {
      hide Span, Tiled, OnlyHeads;
      ghost var d0, m0 := data, mem;
      MarkTiled(mem, arenaStart, blocks, i, false, mem[b].next);
      PutHeader(b, mem[b].(free := false), hs);
      ListedFrame(m0, mem, freeHead, list);
      blocks := Mark(blocks, i, false);
      ghost var d1 := data;
      FindAndUnlink(b, hs);
      OnlyHeadsTrans(d0, d1, data, hs);
    }

    method FindAndUnlink(b: nat, ghost hs: set<nat>)
      requires Tags() && List() && b in list && forall p :: p in list ==> p in hs
      modifies this`mem, this`data, this`freeHead, this`list
      ensures Tags() && List() && (forall p :: p in list <==> p in old(list) && p != b)
      ensures OnlyHeads(old(data), data, hs)
    {
      hide Span, Tiled, OnlyHeads, Listed, Without;
      ghost var k :| 0 <= k < |list| && list[k] == b;
      ListStep(mem, freeHead, list, k);
      WithoutSet(list, k);
      if freeHead == b {
        Unlink(0, mem[b].next, k, hs);
        return;
      }
      var p := freeHead;
      ghost var j: nat := 0;
      ListStep(mem, freeHead, list, 0);
      while p != 0 && mem[p].next != b
        invariant j < k && p == list[j] && p in mem && mem[p].next == Nth(list, j + 1) && p != 0
        modifies {}
        decreases k - j
      {
        p := mem[p].next;
        j := j + 1;
        ListStep(mem, freeHead, list, j);
      }
      Unlink(p, mem[b].next, k, hs);
    }
  }

  lemma JoinedSeq(bs: seq<Block>, i: nat)
    requires i + 1 < |bs|
    ensures Joined(HDR, Mark(bs, i + 1, false), i) == Joined(HDR, bs, i)
    ensures bs[i].free ==> Mark(Joined(HDR, Mark(Mark(bs, i + 1, false), i, false), i), i, true) == Joined(HDR, bs, i)
  {
    assert Mark(bs, i + 1, false)[i + 2..] == bs[i + 2..];
    assert Mark(bs, i + 1, false)[..i] == bs[..i];
  }

  lemma MarkPrefix(bs: seq<Block>, i: nat, free: bool, j: nat)
    requires i < |bs| && j <= |bs|
    ensures |Mark(bs, i, free)| == |bs| && Span(HDR, Mark(bs, i, free)[..j]) == Span(HDR, bs[..j])
  {
    if j <= i {
      assert Mark(bs, i, free)[..j] == bs[..j];
    } else {
      var x, y, y', z := bs[..i], [bs[i]], [Block(bs[i].size, free)], bs[i + 1..j];
      assert bs[..j] == x + y + z && Mark(bs, i, free)[..j] == x + y' + z;
      LiveOne(HDR, 0, bs[i]);
      LiveOne(HDR, 0, y'[0]);
      Replaced(HDR, 0, x, y, y', z);
    }
  }

  lemma ListStep(mem: Headers, head: nat, f: seq<nat>, k: nat)
    requires Listed(mem, head, f) && k < |f|
    ensures head == f[0] && Distinct(f) && f[k] != 0 && f[k] in mem && mem[f[k]].next == Nth(f, k + 1)
    ensures forall j :: 0 <= j < |f| && f[j] == f[k] ==> j == k
  {
  }

  lemma OnlyHeadsSelf(d: Data, hs: set<nat>)
    ensures OnlyHeads(d, d, hs)
  {
  }

  lemma InHeads(a: nat, bs: seq<Block>, i: nat)
    requires i < |bs|
    ensures a + Span(HDR, bs[..i]) in AllHeads(a, bs)
  {
    MarkHeads(a, bs, i, true, true);
    MarkHeads(a, bs, i, true, false);
  }

  lemma AfterTwo(mem: Headers, a: nat, bs: seq<Block>, i: nat)
    requires Tiled(mem, a, bs, 0) && i + 1 < |bs|
    requires a + Span(HDR, bs[..i]) + HDR + bs[i].size + HDR + bs[i + 1].size < a + Span(HDR, bs)
    ensures i + 2 < |bs|
    ensures a + Span(HDR, bs[..i + 2]) == a + Span(HDR, bs[..i]) + HDR + bs[i].size + HDR + bs[i + 1].size
    ensures a + Span(HDR, bs[..i + 2]) in mem
  {
    hide Span, Tiled;
    TagAt(mem, a, bs, i);
    TagAt(mem, a, bs, i + 1);
    assert bs[..|bs|] == bs;
    TagAt(mem, a, bs, i + 2);
  }

  lemma LastTwo(mem: Headers, a: nat, bs: seq<Block>, i: nat)
    requires Tiled(mem, a, bs, 0) && i + 1 < |bs|
    requires a + Span(HDR, bs[..i]) + HDR + bs[i].size + HDR + bs[i + 1].size >= a + Span(HDR, bs)
    ensures i + 2 == |bs|
  {
    hide Span, Tiled;
    TagAt(mem, a, bs, i);
    TagAt(mem, a, bs, i + 1);
    if i + 2 < |bs| {
      TagAt(mem, a, bs, i + 2);
    }
  }

  lemma MarkedAt(bs: seq<Block>, i: nat, free: bool)
    requires i < |bs|
    ensures |Mark(bs, i, free)| == |bs| && Mark(bs, i, free)[i] == Block(bs[i].size, free)
    ensures forall j :: 0 <= j < |bs| && j != i ==> Mark(bs, i, free)[j] == bs[j]
  {
  }

  lemma JoinedAt(bs: seq<Block>, i: nat)
    requires i + 1 < |bs|
    ensures |Joined(HDR, bs, i)| == |bs| - 1 && Joined(HDR, bs, i)[i].free == bs[i].free &&
      Joined(HDR, bs, i)[..i] == bs[..i]
  {
  }

  ghost function Trimmed(bs: seq<Block>, i: nat, n: nat): seq<Block>
    requires i < |bs|
  {
    if bs[i].size < n + MIN_BLOCK then bs else Split(HDR, bs, i, n)
  }

  lemma SplitAt(bs: seq<Block>, i: nat, n: nat)
    requires i < |bs| && n + HDR <= bs[i].size
    ensures var t := Split(HDR, bs, i, n);
      && i + 1 < |t| && t[i + 1].free && t != [] && Mark(t, i + 1, true) == t
      && Span(HDR, t[..i + 1]) == Span(HDR, bs[..i]) + HDR + n
  {
    var t := Split(HDR, bs, i, n);
    assert t[..i + 1] == bs[..i] + [Block(n, false)];
    SpanConcat(HDR, bs[..i], [Block(n, false)]);
    LiveOne(HDR, 0, Block(n, false));
  }

  lemma EndOrNext(mem: Headers, a: nat, bs: seq<Block>, i: nat)
    requires Tiled(mem, a, bs, 0) && i < |bs|
    ensures var e := a + Span(HDR, bs[..i]) + HDR + bs[i].size;
      && (e < a + Span(HDR, bs) <==> i + 1 < |bs|)
      && (i + 1 < |bs| ==> e in mem && e == a + Span(HDR, bs[..i + 1]))
  {
    hide Span, Tiled;
    TagAt(mem, a, bs, i);
    if i + 1 < |bs| {
      TagAt(mem, a, bs, i + 1);
    } else {
      assert bs[..i + 1] == bs;
    }
  }

  lemma NotListed(f: seq<nat>, a: nat, bs: seq<Block>, p: nat)
    requires (forall q :: q in f <==> q in Heads(a, bs, true)) && p !in Heads(a, bs, true)
    ensures p !in f
  {
  }

  /** b is the first block of the list that is large enough. */
  ghost predicate FirstFit(mem: Headers, f: seq<nat>, n: nat, b: int) {
    exists k: nat :: k < |f| && f[k] == b && b in mem && mem[b].size >= n && forall j: nat :: j < k ==>
      f[j] in mem && mem[f[j]].size < n
  }

  lemma HeadFirst(mem: Headers, f: seq<nat>, n: nat, b: int)
    requires f != [] && f[0] in mem && mem[f[0]].size >= n && FirstFit(mem, f, n, b)
    ensures b == f[0]
  {
  }

  ghost predicate HasFit(mem: Headers, f: seq<nat>, n: nat) {
    exists k: nat :: k < |f| && f[k] in mem && mem[f[k]].size >= n
  }

  lemma ListHead(mem: Headers, head: nat, f: seq<nat>)
    requires Listed(mem, head, f)
    ensures head == Nth(f, 0) && (f != [] ==> f[0] != 0 && f[0] in mem)
  {
  }

  lemma MoreHeads(a: nat, bs: seq<Block>, i: nat, n: nat)
    requires i < |bs| && !bs[i].free
    ensures AllHeads(a, bs) <= AllHeads(a, Trimmed(bs, i, n))
  {
    hide Heads, Span;
    if bs[i].size >= n + MIN_BLOCK {
      SplitHeads(a, bs, i, n);
    }
  }

  lemma OnlyHeadsMore(d: Data, d': Data, hs: set<nat>, hs': set<nat>)
    requires OnlyHeads(d, d', hs) && hs <= hs'
    ensures OnlyHeads(d, d', hs')
  {
    forall x: nat | !InHeader(hs', x) ensures !InHeader(hs, x) {
    }
  }

  ghost predicate Eights(bs: seq<Block>) { forall i :: 0 <= i < |bs| ==> bs[i].size % 8 == 0 }

  lemma GrownHeads(a: nat, bs: seq<Block>, n: nat)
    ensures var gs := bs + [Block(n, true)]; var p := a + Span(HDR, bs);
      && Heads(a, gs, true) == Heads(a, bs, true) + {p} && Heads(a, gs, false) == Heads(a, bs, false)
      && Span(HDR, gs) == Span(HDR, bs) + HDR + n && gs[..|bs|] == bs && Mark(gs, |bs|, true) == gs
  {
    hide Heads, Span;
    HeadsConcat(a, bs, [Block(n, true)], true);
    HeadsConcat(a, bs, [Block(n, true)], false);
    HeadOne(a + Span(HDR, bs), Block(n, true), true);
    HeadOne(a + Span(HDR, bs), Block(n, true), false);
    SpanConcat(HDR, bs, [Block(n, true)]);
    LiveOne(HDR, a, Block(n, true));
  }

  lemma GrownTiled(mem: Headers, mem': Headers, a: nat, bs: seq<Block>, n: nat)
    requires Tiled(mem, a, bs, 0)
    requires var b := a + Span(HDR, bs);
      b in mem' && mem' == mem[b := mem'[b]] && SameTag(mem'[b], Header(HDR + n, LastSize(bs, 0), 0, true))
    ensures Tiled(mem', a, bs + [Block(n, true)], 0)
  {
    hide Tiled, Span;
    TiledFrame(mem, mem', a, bs, 0);
    TiledOne(mem', a + Span(HDR, bs), Block(n, true), LastSize(bs, 0));
    TiledConcat(mem', a, bs, [Block(n, true)], 0);
  }

  lemma NotInside(f: seq<nat>, a: nat, bs: seq<Block>, b: nat)
    requires (forall q :: q in f ==> q in Heads(a, bs, true)) && b == a + Span(HDR, bs)
    ensures b !in f
  {
    HeadsRange(a, bs, true);
  }

  lemma NothingThere(mem: Headers, a: nat)
    ensures Tiled(mem, a, [], 0) && Listed(mem, 0, []) && Heads(a, [], true) == {}
  {
  }

  /** A size in whole pages, as a 32-bit word. */
  function Pages(n: nat): nat { (n + 4095) / 4096 * 4096 % W32 }

  lemma PagesFit(n: nat)
    requires 0 < n < W32
    ensures Pages(n) >= n <==> n + 4095 < W32
    ensures n + 4095 < W32 ==> Pages(n) >= 4096 && Pages(n) % 8 == 0
  {
    var q := (n + 4095) / 4096;
    if n + 4095 < W32 {
      assert q < 0x10_0000;
      assert Pages(n) == q * 4096;
    } else {
      assert q == 0x10_0000;
    }
  }

  lemma Nothing(a: nat)
    ensures Live(HDR, a, []) == map[] && AllHeads(a, []) == {}
  {
  }

  lemma NoFit(mem: Headers, n: nat)
    ensures !HasFit(mem, [], n)
  {
  }

  lemma HeadFits(mem: Headers, f: seq<nat>, n: nat)
    requires f != [] && f[0] in mem && mem[f[0]].size >= n
    ensures HasFit(mem, f, n)
  {
  }

  lemma TakenLive(a: nat, bs: seq<Block>, i: nat, n: nat)
    requires i < |bs| && bs[i].free && bs[i].size >= n && n % 8 == 0 && Eights(bs)
    ensures var p := a + Span(HDR, bs[..i]) + HDR; var ts := Trimmed(Mark(bs, i, false), i, n);
      && p !in Live(HDR, a, bs) && p in Live(HDR, a, ts) &&
        Live(HDR, a, ts) == Live(HDR, a, bs)[p := Live(HDR, a, ts)[p]]
      && Live(HDR, a, ts)[p] >= n && Eights(ts)
  {
    hide Span, Live;
    LiveTaken(HDR, a, bs, i);
    assert Mark(bs, i, false) == Taken(bs, i);
    if bs[i].size >= n + MIN_BLOCK {
      assert Split(HDR, Mark(bs, i, false), i, n) == Split(HDR, bs, i, n);
      LiveSplit(HDR, a, bs, i, n);
    }
  }

  lemma GrownLive(a: nat, bs: seq<Block>, n: nat)
    ensures Live(HDR, a, bs + [Block(n, true)]) == Live(HDR, a, bs)
  {
    LiveConcat(HDR, a, bs, [Block(n, true)]);
    LiveOne(HDR, a + Span(HDR, bs), Block(n, true));
  }

  /** The total size of a block for a request, as a 32-bit word. */
  function Needed(nbytes: nat): nat { (nbytes + HDR + 7) / 8 * 8 % W32 }

  /** Requests that survive rounding up to the header and to pages. */
  predicate Bounded(nbytes: nat) { (nbytes + HDR + 7) / 8 * 8 + 4095 < W32 }

  lemma NeededFits(nbytes: nat)
    requires 0 < nbytes && Bounded(nbytes)
    ensures HDR < Needed(nbytes) && Needed(nbytes) % 8 == 0 && Needed(nbytes) >= HDR + nbytes &&
      Needed(nbytes) + 4095 < W32
  {
  }

  lemma {:induction false} LiveEights(a: nat, bs: seq<Block>)
    requires Eights(bs) && a % 8 == 0
    ensures forall p :: p in Live(HDR, a, bs) ==> p % 8 == 0
    decreases bs
  {
    if bs != [] {
      LiveEights(a + HDR + bs[0].size, bs[1..]);
    }
  }

  /** The payload bytes of these allocations are as before. */
  ghost predicate BytesKept(d: Data, d': Data, live: map<nat, nat>) {
    forall q, x :: q in live && q <= x < q + live[q] ==> SameByte(d, d', x)
  }

  lemma KeptSelf(d: Data, live: map<nat, nat>)
    ensures BytesKept(d, d, live)
  {
  }

  lemma KeptOutside(d: Data, d': Data, a: nat, bs: seq<Block>, live: map<nat, nat>)
    requires OnlyHeads(d, d', AllHeads(a, bs))
    requires forall q :: q in live ==> q in Live(HDR, a, bs) && Live(HDR, a, bs)[q] == live[q]
    ensures BytesKept(d, d', live)
  {
    hide Live, Heads;
    forall q, x | q in live && q <= x < q + live[q] ensures SameByte(d, d', x) {
      PayloadApart(a, bs, q, x);
    }
  }

  lemma JoinedEights(bs: seq<Block>, i: nat)
    requires i + 1 < |bs| && Eights(bs)
    ensures Eights(Joined(HDR, bs, i))
  {
    var js := Joined(HDR, bs, i);
    var s, t := bs[i].size, bs[i + 1].size;
    assert (s + HDR + t) % 8 == 0;
    forall k | 0 <= k < |js| ensures js[k].size % 8 == 0 {
      if k < i {
        assert js[k] == bs[k];
      } else if k > i {
        assert js[k] == bs[k + 1];
      } else {
        assert js[k].size == s + HDR + t;
      }
    }
  }

  lemma FreedEights(bs: seq<Block>, i: nat)
    requires i < |bs| && Eights(bs)
    ensures Eights(Freed(HDR, bs, i))
  {
    hide Joined;
    var r := Released(bs, i);
    assert Eights(r);
    if i + 1 < |r| {
      JoinedEights(r, i);
    }
    var m := MergedNext(HDR, r, i);
    FreedSteps(bs, i);
    assert r == Mark(bs, i, true);
    if i > 0 {
      JoinedEights(m, i - 1);
    }
  }

  ghost predicate SameOutside(d: Data, d': Data, lo: nat, hi: nat) {
    forall x: nat :: x < lo || hi <= x ==> SameByte(d, d', x)
  }

  lemma MovedKept(
    d0: Data, d1: Data, d2: Data, d3: Data, live: map<nat, nat>, all: map<nat, nat>, from: nat, to: nat, n: nat)
    requires from in live && live[from] == n && to !in live && to in all && n <= all[to] && all == live[to := all[to]]
    requires forall p, q :: p in all && q in all && p != q ==> p + all[p] <= q || q + all[q] <= p
    requires BytesKept(d0, d1, live) && Moved(d1, d2, from, to, n) && SameOutside(d1, d2, to, to + n) &&
      BytesKept(d2, d3, all)
    ensures Moved(d0, d3, from, to, n) && BytesKept(d0, d3, live - {from})
  {
    forall x: nat | to <= x < to + n
      ensures (x in d3 <==> from + (x - to) in d0) && (x in d3 ==> d3[x] == d0[from + (x - to)])
    {
      assert SameByte(d2, d3, x) && SameByte(d0, d1, from + (x - to));
    }
    forall q, x | q in live - {from} && q <= x < q + live[q] ensures SameByte(d0, d3, x) {
      assert q in all && all[q] == live[q] && q != to;
      assert SameByte(d0, d1, x) && SameByte(d1, d2, x) && SameByte(d2, d3, x);
    }
  }

  lemma FreedSteps(bs: seq<Block>, i: nat)
    requires i < |bs|
    ensures var r := Mark(bs, i, true); var m := MergedNext(HDR, r, i);
      && r[i].free && r[..i] == bs[..i] && i < |m| && m[i].free && m[..i] == bs[..i]
      && MergedPrevious(HDR, m, i) == Freed(HDR, bs, i)
  {
  }

  /** The bytes of an allocation are now found at another address. */
  ghost predicate Moved(d: Data, d': Data, from: nat, to: nat, n: nat) {
    forall x: nat :: to <= x < to + n ==>
      (x in d' <==> from + (x - to) in d) && (x in d' ==> d'[x] == d[from + (x - to)])
  }

  /** The exact requests for which growth makes room. */
  lemma RoundingExact(nbytes: nat)
    requires 0 < nbytes < W32
    ensures (Needed(nbytes) > 0 && Pages(Needed(nbytes)) >= HDR + nbytes) <==> Bounded(nbytes)
  {
    var n := (nbytes + HDR + 7) / 8 * 8;
    if n < W32 {
      assert Needed(nbytes) == n;
      PagesFit(n);
    } else {
      assert Needed(nbytes) < 32;
    }
  }

  lemma KeptLess(d: Data, d': Data, live: map<nat, nat>, gone: set<nat>)
    requires BytesKept(d, d', live)
    ensures BytesKept(d, d', live - gone)
  {
  }

  lemma Separate(a: nat, bs: seq<Block>)
    ensures forall p, q :: p in Live(HDR, a, bs) && q in Live(HDR, a, bs) && p != q ==>
      p + Live(HDR, a, bs)[p] <= q || q + Live(HDR, a, bs)[q] <= p
  {
    hide Live;
    forall p, q | p in Live(HDR, a, bs) && q in Live(HDR, a, bs) && p != q
      ensures p + Live(HDR, a, bs)[p] <= q || q + Live(HDR, a, bs)[q] <= p
    {
      if p < q {
        LiveDisjoint(HDR, a, bs, p, q);
      } else {
        LiveDisjoint(HDR, a, bs, q, p);
      }
    }
  }

  /** memcpy between ranges that do not overlap; unset bytes stay unset. */
  method CopyBytes(d: Data, from: nat, to: nat, n: nat) returns (r: Data)
    requires from + n <= to || to + n <= from
    ensures Moved(d, r, from, to, n) && SameOutside(d, r, to, to + n)
  {
    r := d;
    var k := 0;
    while k < n
      invariant 0 <= k <= n && Moved(d, r, from, to, k) && SameOutside(d, r, to, to + k)
    {
      assert SameByte(d, r, from + k);
      ghost var r0 := r;
      if from + k in d {
        r := r[to + k := d[from + k]];
      } else {
        r := r - {to + k};
      }
      forall x: nat | x < to || to + k < x ensures SameByte(d, r, x) {
        assert SameByte(d, r0, x);
      }
      k := k + 1;
    }
  }

  lemma LiveSize(a: nat, bs: seq<Block>, i: nat)
    requires i < |bs| && !bs[i].free
    ensures var p := a + Span(HDR, bs[..i]) + HDR; p in Live(HDR, a, bs) && Live(HDR, a, bs)[p] == bs[i].size
  {
    hide Span, Live;
    var free := Released(bs, i);
    LiveReleased(HDR, a, bs, i);
    assert Taken(free, i) == bs && free[..i] == bs[..i];
    LiveTaken(HDR, a, free, i);
  }

  lemma PutBack(live: map<nat, nat>, p: nat)
    requires p in live
    ensures (live - {p})[p := live[p]] == live
  {
  }

  lemma DropOld(live: map<nat, nat>, p: nat, q: nat, n: nat)
    requires p != q
    ensures live[q := n] - {p} == (live - {p})[q := n]
  {
  }

  // ----- runs -----

  datatype Request =
    | Allocate(size: nat)
    | Resize(p: nat, size: nat)
    | Release(p: nat)
    | Store(p: nat, k: nat, v: byte)
    | Limit(n: nat)

  /** What a caller sees of the allocator: by pointer, the size of an allocation and
      the bytes last stored in it. */
  datatype Chunk = Chunk(size: nat, bytes: map<nat, byte>)

  type Chunks = map<nat, Chunk>

  /** The arena has these allocations, and every byte stored is still there. */
  ghost predicate Holds(s: Chunks, live: map<nat, nat>, d: Data) {
    && s.Keys == live.Keys
    && forall p :: p in s ==> ChunkHeld(s[p], p, live[p], d)
  }

  ghost predicate ChunkHeld(c: Chunk, p: nat, size: nat, d: Data) {
    c.size == size && forall k: nat :: k in c.bytes ==> k < size && p + k in d && d[p + k] == c.bytes[k]
  }

  /** What a call with result r does. A call that fails does nothing; an allocation
      starts with no bytes stored; a moved one keeps its own. */
  ghost predicate Obeys(s: Chunks, q: Request, r: nat, s': Chunks) {
    match q
    case Allocate(size) =>
      if r == 0 then s' == s else r !in s && exists n: nat :: n >= size && s' == s[r := Chunk(n, map[])]
    case Resize(p, size) =>
      if p !in s || p == 0 then s' == s && r == 0
      else if r != 0 then
        && (r == p || r !in s)
        && exists n: nat :: n >= size && n >= s[p].size && s' == (s - {p})[r := Chunk(n, s[p].bytes)]
      else s' == if size == 0 then s - {p} else s
    case Release(p) => s' == s - {p}
    case Store(p, k, v) =>
      s' == if p in s && k < s[p].size then s[p := s[p].(bytes := s[p].bytes[k := v])] else s
    case Limit(_) => s' == s
  }

  lemma HoldsKept(s: Chunks, live: map<nat, nat>, d: Data, d': Data)
    requires Holds(s, live, d) && BytesKept(d, d', live)
    ensures Holds(s, live, d')
  {
    forall p | p in s ensures ChunkHeld(s[p], p, live[p], d') {
      assert ChunkHeld(s[p], p, live[p], d);
      forall k: nat | k in s[p].bytes ensures p + k in d' && d'[p + k] == s[p].bytes[k] {
        assert SameByte(d, d', p + k);
      }
    }
  }

  lemma HoldsNew(s: Chunks, live: map<nat, nat>, d: Data, p: nat, n: nat)
    requires Holds(s, live, d) && p !in live
    ensures p !in s && Holds(s[p := Chunk(n, map[])], live[p := n], d)
  {
  }

  lemma HoldsLess(s: Chunks, live: map<nat, nat>, d: Data, p: nat)
    requires Holds(s, live, d)
    ensures Holds(s - {p}, live - {p}, d)
  {
  }

  lemma HoldsMoved(s: Chunks, live: map<nat, nat>, d: Data, d': Data, p: nat, r: nat, n: nat)
    requires Holds(s, live, d) && p in live && n >= live[p] && (r == p || r !in live)
    requires BytesKept(d, d', live - {p}) && Moved(d, d', p, r, live[p])
    ensures p in s && Holds((s - {p})[r := Chunk(n, s[p].bytes)], (live - {p})[r := n], d')
  {
    hide BytesKept, ChunkHeld;
    HoldsLess(s, live, d, p);
    HoldsKept(s - {p}, live - {p}, d, d');
    assert ChunkHeld(s[p], p, live[p], d);
    ChunkMoved(s[p], p, r, live[p], n, d, d');
  }

  lemma ChunkMoved(c: Chunk, p: nat, r: nat, size: nat, n: nat, d: Data, d': Data)
    requires ChunkHeld(c, p, size, d) && n >= size && Moved(d, d', p, r, size)
    ensures ChunkHeld(Chunk(n, c.bytes), r, n, d')
  {
    forall k: nat | k in c.bytes ensures r + k in d' && d'[r + k] == c.bytes[k] {
      assert r <= r + k < r + size && p + (r + k - r) == p + k;
    }
  }

  lemma HoldsStored(s: Chunks, live: map<nat, nat>, d: Data, p: nat, k: nat, v: byte)
    requires Holds(s, live, d) && p in live && k < live[p]
    requires forall p, q :: p in live && q in live && p != q ==> p + live[p] <= q || q + live[q] <= p
    ensures p in s && k < s[p].size
    ensures Holds(s[p := s[p].(bytes := s[p].bytes[k := v])], live, d[p + k := v])
  {
    assert ChunkHeld(s[p], p, live[p], d);
    forall q | q in s && q != p ensures ChunkHeld(s[q], q, live[q], d[p + k := v]) {
      assert ChunkHeld(s[q], q, live[q], d);
    }
  }

  /** Over every run of calls with live pointers, and of stores inside live
      payloads, the tags tile the arena and the list holds the free blocks; and the
      run is one of the caller's view, in which every allocation keeps the bytes
      stored in it until it is released, through moves and the calls on all others. */
  method Run(m: Arena, reqs: seq<Request>) returns (live: map<nat, nat>, rs: seq<nat>, ghost trace: seq<Chunks>)
    requires m.Valid() && m.Allocations() == map[]
    modifies m
    ensures m.Valid() && live == m.Allocations()
    ensures |rs| == |reqs| && |trace| == |reqs| + 1 && trace[0] == map[] && Holds(trace[|reqs|], live, m.data)
    ensures forall k :: 0 <= k < |reqs| ==> Obeys(trace[k], reqs[k], rs[k], trace[k + 1])
  {
    hide Live, Tiled, Listed, Heads, BytesKept, Moved, Bounded, Obeys;
    live, rs, trace := map[], [], [map[]];
    while |rs| < |reqs|
      invariant |rs| <= |reqs| && |trace| == |rs| + 1 && m.Valid() && live == m.Allocations()
      invariant trace[0] == map[] && Holds(trace[|rs|], live, m.data)
      invariant forall k :: 0 <= k < |rs| ==> Obeys(trace[k], reqs[k], rs[k], trace[k + 1])
    {
      var r;
      ghost var s;
      live, r, s := Serve(m, reqs[|rs|], live, trace[|rs|]);
      rs, trace := rs + [r], trace + [s];
    }
  }

  method Serve(m: Arena, q: Request, live: map<nat, nat>, ghost s: Chunks)
    returns (live': map<nat, nat>, r: nat, ghost s': Chunks)
    requires m.Valid() && live == m.Allocations() && Holds(s, live, m.data)
    modifies m
    ensures m.Valid() && live' == m.Allocations() && Holds(s', live', m.data) && Obeys(s, q, r, s')
  {
    hide Live, Tiled, Listed, Heads, BytesKept, Moved, Bounded, HasFit, FirstFit, Needed, Pages, ChunkHeld, OnlyHeads,
      Span, Eights;
    live', r, s' := live, 0, s;
    ghost var d := m.data;
    SameSizes(s, live, d);
    NoneBounded();
    match q
    case Allocate(size) =>
      if Bounded(size) {
        r := m.Malloc(size);
        HoldsKept(s, live, d, m.data);
        if r != 0 {
          var n := m.SizeOf(r);
          live', s' := live[r := n], s[r := Chunk(n, map[])];
          HoldsNew(s, live, m.data, r, n);
        }
      }
    case Resize(p, size) =>
      if p in live && p != 0 && Bounded(size) {
        live', r, s' := Resized(m, p, size, live, s);
      }
    case Release(p) =>
      if p in live {
        m.Free(p);
        HoldsKept(s, live, d, m.data);
        HoldsLess(s, live, m.data, p);
        live', s' := live - {p}, s - {p};
      } else {
        assert s - {p} == s;
      }
    case Store(p, k, v) =>
      if p in live && k < live[p] {
        Separate(m.arenaStart, m.blocks);
        HoldsStored(s, live, d, p, k, v);
        s' := s[p := s[p].(bytes := s[p].bytes[k := v])];
        m.data := m.data[p + k := v];
      }
    case Limit(n) => m.limit := n;
  }

  method Resized(m: Arena, p: nat, size: nat, live: map<nat, nat>, ghost s: Chunks)
    returns (live': map<nat, nat>, r: nat, ghost s': Chunks)
    requires m.Valid() && live == m.Allocations() && Holds(s, live, m.data) && p in live && p != 0 && Bounded(size)
    modifies m
    ensures m.Valid() && live' == m.Allocations() && Holds(s', live', m.data) && Obeys(s, Resize(p, size), r, s')
  {
    hide Live, Tiled, Listed, Heads, BytesKept, Moved, Bounded, HasFit, FirstFit, Needed, Pages, ChunkHeld, OnlyHeads,
      Span, Eights;
    ghost var d := m.data;
    SameSizes(s, live, d);
    r := m.Realloc(p, size);
    if size == 0 {
      HoldsLess(s, live, d, p);
      HoldsKept(s - {p}, live - {p}, d, m.data);
      live', s' := live - {p}, s - {p};
    } else if r != 0 {
      var n := m.SizeOf(r);
      HoldsMoved(s, live, d, m.data, p, r, n);
      live', s' := (live - {p})[r := n], (s - {p})[r := Chunk(n, s[p].bytes)];
    } else {
      HoldsKept(s, live, d, m.data);
      live', s' := live, s;
    }
  }

  lemma NoneBounded()
    ensures Bounded(0)
  {
  }

  lemma SameSizes(s: Chunks, live: map<nat, nat>, d: Data)
    requires Holds(s, live, d)
    ensures forall p :: p in s <==> p in live
    ensures forall p :: p in s ==> s[p].size == live[p]
  {
    forall p | p in s ensures s[p].size == live[p] {
      assert ChunkHeld(s[p], p, live[p], d);
    }
  }
}
