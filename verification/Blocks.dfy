/**
 Blocks that tile a region, each a header of h bytes and a payload, as both
 allocators keep them; Live gives the allocations they hold.
 */
module Blocks {
  type pos = x: nat | 0 < x witness 1

  datatype Block = Block(size: nat, free: bool)

  // ----- the block sequence -----

  /** Bytes that blocks take, headers included. */
  ghost function Span(h: pos, bs: seq<Block>): (n: nat)
    ensures bs != [] ==> n >= h
  {
    if bs == [] then 0 else h + bs[0].size + Span(h, bs[1..])
  }

  lemma {:induction false} SpanConcat(h: pos, a: seq<Block>, b: seq<Block>)
    ensures Span(h, a + b) == Span(h, a) + Span(h, b)
  {
    if a == [] {
      assert a + b == b;
    } else {
      assert (a + b)[1..] == a[1..] + b;
      SpanConcat(h, a[1..], b);
    }
  }

  /** The live allocations of blocks that start at address a: payload address to
      payload size. */
  ghost function Live(h: pos, a: nat, bs: seq<Block>): map<nat, nat>
    decreases bs
  {
    if bs == [] then map[]
    else Head(h, a, bs[0]) + Live(h, a + h + bs[0].size, bs[1..])
  }

  ghost function Head(h: pos, a: nat, b: Block): map<nat, nat> {
    if b.free then map[] else map[a + h := b.size]
  }

  /** Payloads lie inside the blocks. */
  lemma {:induction false} LiveRange(h: pos, a: nat, bs: seq<Block>)
    ensures forall p :: p in Live(h, a, bs) ==> a + h <= p && p + Live(h, a, bs)[p] <= a + Span(h, bs)
    decreases bs
  {
    if bs != [] {
      LiveRange(h, a + h + bs[0].size, bs[1..]);
    }
  }

  lemma MapAssoc(f: map<nat, nat>, g: map<nat, nat>, h: map<nat, nat>)
    ensures f + (g + h) == (f + g) + h
  {
  }

  lemma {:induction false} LiveConcat(h: pos, a: nat, x: seq<Block>, y: seq<Block>)
    ensures Live(h, a, x + y) == Live(h, a, x) + Live(h, a + Span(h, x), y)
    decreases x
  {
    hide Head;
    if x == [] {
      assert x + y == y;
    } else {
      assert (x + y)[1..] == x[1..] + y && (x + y)[0] == x[0];
      var a' := a + h + x[0].size;
      LiveConcat(h, a', x[1..], y);
      MapAssoc(Head(h, a, x[0]), Live(h, a', x[1..]), Live(h, a' + Span(h, x[1..]), y));
    }
  }

  /** Two live payloads never overlap. */
  lemma {:induction false} LiveDisjoint(h: pos, a: nat, bs: seq<Block>, p: nat, q: nat)
    requires p in Live(h, a, bs) && q in Live(h, a, bs) && p < q
    ensures p + Live(h, a, bs)[p] + h <= q
    decreases bs
  {
    LiveRange(h, a + h + bs[0].size, bs[1..]);
    if p != a + h || bs[0].free {
      LiveDisjoint(h, a + h + bs[0].size, bs[1..], p, q);
    }
  }

  // ----- the three changes -----

  function Taken(bs: seq<Block>, i: nat): seq<Block>
    requires i < |bs|
  {
    bs[..i] + [Block(bs[i].size, false)] + bs[i + 1..]
  }

  function Split(h: pos, bs: seq<Block>, i: nat, size: nat): seq<Block>
    requires i < |bs| && size + h <= bs[i].size
  {
    bs[..i] + [Block(size, false), Block(bs[i].size - size - h, true)] + bs[i + 1..]
  }

  function Released(bs: seq<Block>, i: nat): seq<Block>
    requires i < |bs|
  {
    bs[..i] + [Block(bs[i].size, true)] + bs[i + 1..]
  }

  /** Block i absorbs the next one. */
  function Joined(h: pos, bs: seq<Block>, i: nat): seq<Block>
    requires i + 1 < |bs|
  {
    bs[..i] + [Block(bs[i].size + h + bs[i + 1].size, bs[i].free)] + bs[i + 2..]
  }

  /** Replacing blocks by others of the same span, without live ones on either
      side changing, changes the live ones only in the middle. */
  lemma Replaced(h: pos, a: nat, x: seq<Block>, y: seq<Block>, y': seq<Block>, z: seq<Block>)
    requires Span(h, y) == Span(h, y')
    ensures Span(h, x + y' + z) == Span(h, x + y + z)
    ensures Live(h, a, x + y + z) ==
      Live(h, a, x) + Live(h, a + Span(h, x), y) + Live(h, a + Span(h, x) + Span(h, y), z)
    ensures Live(h, a, x + y' + z) ==
      Live(h, a, x) + Live(h, a + Span(h, x), y') + Live(h, a + Span(h, x) + Span(h, y), z)
  {
    hide Span, Live;
    SpanConcat(h, x + y, z);
    SpanConcat(h, x, y);
    SpanConcat(h, x + y', z);
    SpanConcat(h, x, y');
    LiveConcat(h, a, x + y, z);
    LiveConcat(h, a, x, y);
    LiveConcat(h, a, x + y', z);
    LiveConcat(h, a, x, y');
  }

  lemma LiveOne(h: pos, a: nat, b: Block)
    ensures Span(h, [b]) == h + b.size
    ensures Live(h, a, [b]) == if b.free then map[] else map[a + h := b.size]
  {
  }

  lemma LiveTwo(h: pos, a: nat, b: Block, c: Block)
    ensures Span(h, [b, c]) == h + b.size + h + c.size
    ensures c.free ==> Live(h, a, [b, c]) == if b.free then map[] else map[a + h := b.size]
  {
    assert [b, c][1..] == [c];
    LiveOne(h, a + h + b.size, c);
  }

  lemma MapMiddle(l: map<nat, nat>, r: map<nat, nat>, p: nat, v: nat)
    requires p !in l && p !in r
    ensures p !in l + map[] + r && p in l + map[p := v] + r
    ensures (l + map[] + r)[p := v] == l + map[p := v] + r
    ensures l + map[] + r == (l + map[p := v] + r) - {p}
  {
  }

  /** Live allocations after each change. */
  lemma LiveTaken(h: pos, a: nat, bs: seq<Block>, i: nat)
    requires i < |bs| && bs[i].free
    ensures var p := a + Span(h, bs[..i]) + h;
      p !in Live(h, a, bs) && Live(h, a, Taken(bs, i)) == Live(h, a, bs)[p := bs[i].size] &&
        Span(h, Taken(bs, i)) == Span(h, bs)
  {
    hide Span, Live;
    var x, y, y', z := bs[..i], [bs[i]], [Block(bs[i].size, false)], bs[i + 1..];
    assert bs == x + y + z;
    LiveOne(h, a + Span(h, x), y[0]);
    LiveOne(h, a + Span(h, x), y'[0]);
    Replaced(h, a, x, y, y', z);
    LiveRange(h, a, x);
    LiveRange(h, a + Span(h, x) + Span(h, y), z);
    MapMiddle(Live(h, a, x), Live(h, a + Span(h, x) + Span(h, y), z), a + Span(h, x) + h, y'[0].size);
  }

  lemma LiveSplit(h: pos, a: nat, bs: seq<Block>, i: nat, size: nat)
    requires i < |bs| && bs[i].free && size + h <= bs[i].size
    ensures var p := a + Span(h, bs[..i]) + h;
      p !in Live(h, a, bs) && Live(h, a, Split(h, bs, i, size)) == Live(h, a, bs)[p := size] &&
        Span(h, Split(h, bs, i, size)) == Span(h, bs)
  {
    hide Span, Live;
    var x, y, z := bs[..i], [bs[i]], bs[i + 1..];
    var y' := [Block(size, false), Block(bs[i].size - size - h, true)];
    assert bs == x + y + z;
    LiveOne(h, a + Span(h, x), y[0]);
    LiveTwo(h, a + Span(h, x), y'[0], y'[1]);
    Replaced(h, a, x, y, y', z);
    LiveRange(h, a, x);
    LiveRange(h, a + Span(h, x) + Span(h, y), z);
    MapMiddle(Live(h, a, x), Live(h, a + Span(h, x) + Span(h, y), z), a + Span(h, x) + h, y'[0].size);
  }

  lemma LiveReleased(h: pos, a: nat, bs: seq<Block>, i: nat)
    requires i < |bs| && !bs[i].free
    ensures var p := a + Span(h, bs[..i]) + h;
      p in Live(h, a, bs) && Live(h, a, Released(bs, i)) == Live(h, a, bs) - {p} &&
        Span(h, Released(bs, i)) == Span(h, bs)
  {
    hide Span, Live;
    var x, y, y', z := bs[..i], [bs[i]], [Block(bs[i].size, true)], bs[i + 1..];
    assert bs == x + y + z;
    LiveOne(h, a + Span(h, x), y[0]);
    LiveOne(h, a + Span(h, x), y'[0]);
    Replaced(h, a, x, y, y', z);
    LiveRange(h, a, x);
    LiveRange(h, a + Span(h, x) + Span(h, y), z);
    MapMiddle(Live(h, a, x), Live(h, a + Span(h, x) + Span(h, y), z), a + Span(h, x) + h, y'[0].size);
  }

  lemma LiveJoined(h: pos, a: nat, bs: seq<Block>, i: nat)
    requires i + 1 < |bs| && bs[i].free && bs[i + 1].free
    ensures Live(h, a, Joined(h, bs, i)) == Live(h, a, bs) && Span(h, Joined(h, bs, i)) == Span(h, bs)
  {
    hide Span, Live;
    var x, y, z := bs[..i], [bs[i], bs[i + 1]], bs[i + 2..];
    var y' := [Block(bs[i].size + h + bs[i + 1].size, true)];
    assert bs == x + y + z;
    LiveTwo(h, a + Span(h, x), y[0], y[1]);
    LiveOne(h, a + Span(h, x), y'[0]);
    Replaced(h, a, x, y, y', z);
  }

  ghost function MergedNext(h: pos, bs: seq<Block>, i: nat): seq<Block> {
    if i + 1 < |bs| && bs[i + 1].free then Joined(h, bs, i) else bs
  }

  ghost function MergedPrevious(h: pos, bs: seq<Block>, i: nat): seq<Block>
    requires i < |bs|
  {
    if i > 0 && bs[i - 1].free then Joined(h, bs, i - 1) else bs
  }

  ghost function Freed(h: pos, bs: seq<Block>, i: nat): seq<Block>
    requires i < |bs|
  {
    MergedPrevious(h, MergedNext(h, Released(bs, i), i), i)
  }

  lemma EmptySpan(h: pos, bs: seq<Block>)
    ensures Span(h, bs[..0]) == 0
  {
  }

  lemma {:induction false} LiveIndex(h: pos, a: nat, bs: seq<Block>, p: nat) returns (i: nat)
    requires p in Live(h, a, bs)
    ensures i < |bs| && !bs[i].free && p == a + Span(h, bs[..i]) + h
    decreases bs
  {
    if p == a + h && !bs[0].free {
      assert bs[..0] == [];
      i := 0;
    } else {
      var j := LiveIndex(h, a + h + bs[0].size, bs[1..], p);
      i := j + 1;
      assert bs[..i] == [bs[0]] + bs[1..][..j];
      SpanConcat(h, [bs[0]], bs[1..][..j]);
      LiveOne(h, a, bs[0]);
    }
  }

  lemma {:induction false} SpanPrefix(h: pos, bs: seq<Block>, i: nat)
    requires i < |bs|
    ensures Span(h, bs[..i]) + h + bs[i].size <= Span(h, bs)
  {
    assert bs == bs[..i] + bs[i..];
    SpanConcat(h, bs[..i], bs[i..]);
  }

  lemma SpanLess(h: pos, bs: seq<Block>, i: nat, j: nat)
    requires i < j <= |bs|
    ensures Span(h, bs[..i]) < Span(h, bs[..j])
  {
    assert bs[..j] == bs[..i] + bs[i..j];
    SpanConcat(h, bs[..i], bs[i..j]);
  }

  lemma SpanOrder(h: pos, bs: seq<Block>, i: nat)
    requires i <= |bs|
    ensures forall j :: 0 <= j < i ==> Span(h, bs[..j]) < Span(h, bs[..i])
  {
    forall j | 0 <= j < i ensures Span(h, bs[..j]) < Span(h, bs[..i]) {
      SpanLess(h, bs, j, i);
    }
  }

  /** Releasing a live block and merging it with free neighbours forgets exactly
      that allocation. */
  lemma FreedLive(h: pos, a: nat, bs: seq<Block>, i: nat)
    requires i < |bs| && !bs[i].free
    ensures Span(h, Freed(h, bs, i)) == Span(h, bs) && a + Span(h, bs[..i]) + h in Live(h, a, bs)
    ensures Live(h, a, Freed(h, bs, i)) == Live(h, a, bs) - {a + Span(h, bs[..i]) + h}
  {
    hide Span, Live;
    var r := Released(bs, i);
    LiveReleased(h, a, bs, i);
    var r1 := MergedNext(h, r, i);
    if i + 1 < |r| && r[i + 1].free {
      LiveJoined(h, a, r, i);
    }
    if i > 0 && r1[i - 1].free {
      LiveJoined(h, a, r1, i - 1);
    }
  }
}
