/**
 A pipe and the calls in progress on it. Kernel code is only interleaved where it
 yields, so each loop round between yields is one atomic step of a call.
 */
module Pipe {
  import opened Arith
  import opened Octets

  const SIZE := 4096

  // ----- the ring -----

  /** The slot i places after p. */
  function Slot(p: nat, i: nat): (r: nat)
    ensures r < SIZE
  {
    (p + i) % SIZE
  }

  ghost function Ring(buf: seq<byte>, rp: nat, count: nat): (s: seq<byte>)
    requires |buf| == SIZE
    ensures |s| == count && forall i: nat :: i < count ==> s[i] == buf[Slot(rp, i)]
  {
    seq(count, i requires 0 <= i => buf[Slot(rp, i)])
  }

  lemma EmptyRing(buf: seq<byte>, rp: nat)
    requires |buf| == SIZE
    ensures Ring(buf, rp, 0) == []
  {
  }

  lemma RingPush(buf: seq<byte>, rp: nat, count: nat, b: byte)
    requires |buf| == SIZE && rp < SIZE && count < SIZE
    ensures Ring(buf[Slot(rp, count) := b], rp, count + 1) == Ring(buf, rp, count) + [b]
  {
    hide Slot;
    forall i: nat | i < count ensures Slot(rp, i) != Slot(rp, count) {
      SlotsApart(rp, i, count);
    }
  }

  lemma SlotsApart(rp: nat, i: nat, j: nat)
    requires i < j < SIZE
    ensures Slot(rp, i) != Slot(rp, j)
  {
  }

  lemma RingPop(buf: seq<byte>, rp: nat, count: nat)
    requires |buf| == SIZE && rp < SIZE && 0 < count
    ensures Slot(rp, 0) == rp && Ring(buf, rp, count) == [buf[rp]] + Ring(buf, Slot(rp, 1), count - 1)
  {
    assert Slot(rp, 0) == rp;
    hide Slot;
    forall i: nat | 0 < i < count ensures Ring(buf, rp, count)[i] == Ring(buf, Slot(rp, 1), count - 1)[i - 1] {
      SlotShift(rp, i - 1);
    }
  }

  lemma SlotShift(rp: nat, i: nat)
    ensures Slot(rp, i + 1) == Slot(Slot(rp, 1), i) == Slot(Slot(rp, i), 1)
  {
  }

  lemma Regroup(a: seq<byte>, b: byte, c: seq<byte>)
    ensures a + ([b] + c) == (a + [b]) + c
  {
  }

  // ----- who moved which byte -----

  datatype Moved = Moved(call: nat, b: byte)

  ghost function Bytes(log: seq<Moved>): (s: seq<byte>)
    ensures |s| == |log| && forall i :: 0 <= i < |log| ==> s[i] == log[i].b
  {
    seq(|log|, i requires 0 <= i < |log| => log[i].b)
  }

  /** The bytes that one call moved, in order. */
  ghost function By(log: seq<Moved>, t: nat): seq<byte> {
    if log == [] then [] else By(log[..|log| - 1], t) + if log[|log| - 1].call == t then [log[|log| - 1].b] else []
  }

  ghost function Tagged(s: seq<byte>, t: nat): seq<Moved> {
    seq(|s|, i requires 0 <= i < |s| => Moved(t, s[i]))
  }

  lemma ByAppend(log: seq<Moved>, m: Moved, u: nat)
    ensures By(log + [m], u) == By(log, u) + if m.call == u then [m.b] else []
    ensures Bytes(log + [m]) == Bytes(log) + [m.b]
  {
    assert (log + [m])[..|log|] == log;
  }

  lemma TaggedStep(s: seq<byte>, t: nat)
    requires s != []
    ensures Tagged(s, t) == Tagged(s[..|s| - 1], t) + [Moved(t, s[|s| - 1])]
  {
  }

  lemma {:induction false} ByTagged(log: seq<Moved>, s: seq<byte>, t: nat, u: nat)
    ensures By(log + Tagged(s, t), u) == if u == t then By(log, t) + s else By(log, u)
    ensures Bytes(log + Tagged(s, t)) == Bytes(log) + s
  {
    hide By, Bytes, Tagged;
    if s == [] {
      TaggedNone(log, t);
      assert By(log, t) + s == By(log, t) && Bytes(log) + s == Bytes(log);
    } else {
      var n := |s| - 1;
      var init, m := Tagged(s[..n], t), Moved(t, s[n]);
      ByTagged(log, s[..n], t, u);
      TaggedStep(s, t);
      assert log + (init + [m]) == (log + init) + [m];
      ByAppend(log + init, m, u);
      Regroup2(By(log, t), s[..n], [s[n]]);
      Regroup2(Bytes(log), s[..n], [s[n]]);
      assert s == s[..n] + [s[n]];
    }
  }

  // ----- calls -----

  datatype Call =
    | Reading(n: nat)
    | Writing(src: seq<byte>, done: nat)
    | ReadDone(asked: nat, data: seq<byte>)
    | WriteDone(all: seq<byte>, r: int)

  /** What the logs say about a call. */
  ghost predicate CallOk(c: Call, put: seq<byte>, got: seq<byte>) {
    match c
    case Reading(n) => n > 0 && put == [] && got == []
    case Writing(src, done) => done < |src| && put == src[..done] && got == []
    case ReadDone(asked, data) => |data| <= asked && put == [] && got == data
    case WriteDone(all, r) => -1 <= r <= |all| && put == (if r > 0 then all[..r] else []) && got == []
  }

  class PipeSystem {
    const buf: array<byte>
    var readPos: nat
    var writePos: nat
    var count: nat
    var readers: nat
    var writers: nat
    var calls: map<nat, Call>
    ghost var put: seq<Moved>
    ghost var got: seq<Moved>

    /** Everything put in has come out, in order, or is in the ring. */
    ghost predicate Valid()
      reads this, buf
    {
      && buf.Length == SIZE && readPos < SIZE && count <= SIZE && writePos == Slot(readPos, count)
      && Bytes(put) == Bytes(got) + Ring(buf[..], readPos, count)
      && (forall t: nat :: t in calls ==> CallOk(calls[t], By(put, t), By(got, t)))
      && (forall t: nat :: t !in calls ==> By(put, t) == [] && By(got, t) == [])
    }

    constructor ()
      ensures Valid() && calls == map[] && readers == 0 && writers == 0 && put == [] && got == []
    {
      buf := new byte[SIZE](_ => 0);
      readPos, writePos, count, readers, writers := 0, 0, 0, 0, 0;
      calls := map[];
      put, got := [], [];
    }

    /** Take n bytes out of the ring. */
    method Dequeue(n: nat) returns (data: seq<byte>)
      requires buf.Length == SIZE && readPos < SIZE && n <= count <= SIZE && writePos == Slot(readPos, count)
      modifies this`readPos, this`count
      ensures |data| == n && count == old(count) - n && readPos < SIZE && writePos == Slot(readPos, count)
      ensures old(Ring(buf[..], readPos, count)) == data + Ring(buf[..], readPos, count)
    {
      hide Slot, Ring;
      ghost var ring := Ring(buf[..], readPos, count);
      data := [];
      assert ring == data + ring;
      var i := 0;
      while i < n
        invariant 0 <= i <= n && |data| == i && readPos < SIZE && count == old(count)
        invariant writePos == Slot(readPos, count - i)
        invariant ring == data + Ring(buf[..], readPos, count - i)
      {
        RingPop(buf[..], readPos, count - i);
        SlotShift(readPos, count - i - 1);
        Regroup(data, buf[readPos], Ring(buf[..], Slot(readPos, 1), count - i - 1));
        data := data + [buf[readPos]];
        readPos := Slot(readPos, 1);
        i := i + 1;
      }
      count := count - n;
    }

    /** Append bytes to the ring. */
    method Enqueue(src: seq<byte>)
      requires buf.Length == SIZE && readPos < SIZE && count + |src| <= SIZE && writePos == Slot(readPos, count)
      modifies this`writePos, this`count, buf
      ensures count == old(count) + |src| && writePos == Slot(readPos, count)
      ensures Ring(buf[..], readPos, count) == old(Ring(buf[..], readPos, count)) + src
    {
      hide Slot;
      ghost var ring := Ring(buf[..], readPos, count);
      var i := 0;
      while i < |src|
        invariant 0 <= i <= |src| && count == old(count) && writePos == Slot(readPos, count + i)
        invariant Ring(buf[..], readPos, count + i) == ring + src[..i]
      {
        RingPush(buf[..], readPos, count + i, src[i]);
        SlotShift(readPos, count + i);
        ghost var was := buf[..];
        buf[writePos] := src[i];
        assert buf[..] == was[writePos := src[i]];
        writePos := Slot(writePos, 1);
        i := i + 1;
      }
      count := count + |src|;
    }
  
    /** The logs after call t moved some bytes. */
    lemma CallsAfter(t: nat, c: Call, more: seq<byte>, taken: seq<byte>)
      requires forall u: nat :: u in calls ==> CallOk(calls[u], By(put, u), By(got, u))
      requires forall u: nat :: u !in calls ==> By(put, u) == [] && By(got, u) == []
      requires CallOk(c, By(put, t) + more, By(got, t) + taken)
      ensures var put', got' := put + Tagged(more, t), got + Tagged(taken, t); var calls' := calls[t := c];
        && (forall u: nat :: u in calls' ==> CallOk(calls'[u], By(put', u), By(got', u)))
        && (forall u: nat :: u !in calls' ==> By(put', u) == [] && By(got', u) == [])
        && Bytes(put') == Bytes(put) + more && Bytes(got') == Bytes(got) + taken
    {
      hide By, Tagged, CallOk;
      forall u: nat ensures By(put + Tagged(more, t), u) == (if u == t then By(put, t) + more else By(put, u))
        && By(got + Tagged(taken, t), u) == (if u == t then By(got, t) + taken else By(got, u))
      {
        ByTagged(put, more, t, u);
        ByTagged(got, taken, t, u);
      }
      ByTagged(put, more, t, t);
      ByTagged(got, taken, t, t);
    }

    method BeginRead(t: nat, n: nat)
      requires Valid() && t !in calls
      modifies this`calls
      ensures Valid() && calls == old(calls)[t := if n == 0 then ReadDone(0, []) else Reading(n)]
    {
      calls := calls[t := if n == 0 then ReadDone(0, []) else Reading(n)];
    }

    method BeginWrite(t: nat, src: seq<byte>)
      requires Valid() && t !in calls
      modifies this`calls
      ensures Valid()
      ensures calls == old(calls)[t :=
        if |src| == 0 then WriteDone(src, 0) else if readers == 0 then WriteDone(src, -1) else Writing(src, 0)]
    {
      calls := calls[t :=
        if |src| == 0 then WriteDone(src, 0) else if readers == 0 then WriteDone(src, -1) else Writing(src, 0)];
    }

    /** A reader runs until it has bytes, sees the end of the stream, or yields.
        It reports the end only when no writer is left and every byte put in has
        come out. */
    method ResumeRead(t: nat)
      requires Valid() && t in calls && calls[t].Reading?
      modifies this`readPos, this`count, this`calls, this`got
      ensures t in calls && calls == old(calls)[t := calls[t]]
      ensures Valid() && old(got) <= got && (calls[t].Reading? || calls[t].ReadDone?)
      ensures calls[t].Reading? <==> old(count) == 0 && writers > 0
      ensures calls[t].Reading? ==> calls == old(calls) && got == old(got) && Bytes(put) == Bytes(got)
      ensures calls[t].ReadDone? ==>
        && calls[t].asked == old(calls)[t].n && |calls[t].data| == Min(calls[t].asked, old(count))
        && got == old(got) + Tagged(calls[t].data, t)
      ensures calls[t].ReadDone? && calls[t].data == [] ==> writers == 0 && Bytes(put) == Bytes(got)
    {
      hide Slot, Ring, By, Tagged, CallOk, Bytes;
      InProgress(calls[t], By(put, t), By(got, t));
      var n := calls[t].n;
      if count == 0 && writers > 0 {
        EmptyRing(buf[..], readPos);
        assert Bytes(got) + [] == Bytes(got);
        return;
      }
      if count == 0 {
        ReadOn(n, [], By(put, t), By(got, t));
        CallsAfter(t, ReadDone(n, []), [], []);
        TaggedNone(put, t);
        TaggedNone(got, t);
        EmptyRing(buf[..], readPos);
        assert Bytes(got) + [] == Bytes(got);
        calls := calls[t := ReadDone(n, [])];
        return;
      }
      var chunk := if n < count then n else count;
      var data := Dequeue(chunk);
      ReadOn(n, data, By(put, t), By(got, t));
      CallsAfter(t, ReadDone(n, data), [], data);
      TaggedNone(put, t);
      Regroup2(Bytes(got), data, Ring(buf[..], readPos, count));
      calls := calls[t := ReadDone(n, data)];
      got := got + Tagged(data, t);
    }

    /** A writer runs one round: it stops when no reader is left, yields when the
        ring is full, and otherwise appends what fits. */
    method ResumeWrite(t: nat)
      requires Valid() && t in calls && calls[t].Writing?
      modifies this`writePos, this`count, this`calls, this`put, buf
      ensures t in calls && calls == old(calls)[t := calls[t]]
      ensures Valid() && old(put) <= put && old(calls)[t].done <= |old(calls)[t].src|
      ensures var src, done := old(calls)[t].src, old(calls)[t].done;
        var moved := if readers == 0 then 0 else Min(|src| - done, SIZE - old(count));
        && put == old(put) + Tagged(src[done..done + moved], t)
        && calls[t] == if readers == 0 then WriteDone(src, if done > 0 then done else -1)
                       else if done + moved == |src| then WriteDone(src, |src|) else Writing(src, done + moved)
      ensures calls[t].WriteDone? && calls[t].r < |calls[t].all| ==> readers == 0
    {
      hide Slot, Ring, By, Tagged, CallOk, Bytes;
      InProgress(calls[t], By(put, t), By(got, t));
      var src, done := calls[t].src, calls[t].done;
      TaggedNone(put, t);
      if count == SIZE && readers > 0 {
        assert src[done..done] == [];
        return;
      }
      if readers == 0 {
        var c := WriteDone(src, if done > 0 then done else -1);
        WriteStop(src, done, By(put, t), By(got, t));
        CallsAfter(t, c, [], []);
        assert src[done..done] == [];
        TaggedNone(got, t);
        calls := calls[t := c];
        return;
      }
      var room := SIZE - count;
      var chunk := if |src| - done < room then |src| - done else room;
      var part := src[done..done + chunk];
      Enqueue(part);
      WriteOn(src, done, chunk, By(put, t), By(got, t));
      var c := if done + chunk == |src| then WriteDone(src, |src|) else Writing(src, done + chunk);
      CallsAfter(t, c, part, []);
      TaggedNone(got, t);
      calls := calls[t := c];
      put := put + Tagged(part, t);
    }
  }

  lemma InProgress(c: Call, p: seq<byte>, g: seq<byte>)
    requires CallOk(c, p, g)
    ensures c.Writing? ==> c.done < |c.src|
    ensures c.Reading? ==> c.n > 0
  {
  }

  lemma WriteOn(src: seq<byte>, done: nat, chunk: nat, p: seq<byte>, g: seq<byte>)
    requires CallOk(Writing(src, done), p, g) && done + chunk <= |src|
    ensures var c := if done + chunk == |src| then WriteDone(src, |src|) else Writing(src, done + chunk);
      CallOk(c, p + src[done..done + chunk], g + [])
  {
    assert src[..done] + src[done..done + chunk] == src[..done + chunk];
    assert src[..|src|] == src && g + [] == g;
  }

  lemma WriteStop(src: seq<byte>, done: nat, p: seq<byte>, g: seq<byte>)
    requires CallOk(Writing(src, done), p, g)
    ensures CallOk(WriteDone(src, if done > 0 then done else -1), p + [], g + [])
  {
    assert p + [] == p && g + [] == g;
  }

  lemma ReadOn(n: nat, data: seq<byte>, p: seq<byte>, g: seq<byte>)
    requires CallOk(Reading(n), p, g) && |data| <= n
    ensures CallOk(ReadDone(n, data), p + [], g + data)
  {
  }

  lemma TaggedNone(log: seq<Moved>, t: nat)
    ensures log + Tagged([], t) == log
  {
  }

  lemma Regroup2(a: seq<byte>, b: seq<byte>, c: seq<byte>)
    ensures a + (b + c) == (a + b) + c
  {
  }

  // ----- runs -----

  datatype Event =
    | BeginRead(t: nat, n: nat) | BeginWrite(t: nat, src: seq<byte>) | Resume(t: nat)
    | AddReader | AddWriter | CloseReader | CloseWriter

  method Step(p: PipeSystem, e: Event)
    requires p.Valid()
    modifies p, p.buf
    ensures p.Valid() && old(p.put) <= p.put && old(p.got) <= p.got
  {
    hide Slot, Ring, By, Tagged, Bytes, CallOk;
    match e
    case BeginRead(t, n) =>
      if t !in p.calls {
        p.BeginRead(t, n);
      }
    case BeginWrite(t, src) =>
      if t !in p.calls {
        p.BeginWrite(t, src);
      }
    case Resume(t) =>
      if t in p.calls && p.calls[t].Reading? {
        p.ResumeRead(t);
      } else if t in p.calls && p.calls[t].Writing? {
        p.ResumeWrite(t);
      }
    case AddReader => p.readers := p.readers + 1;
    case AddWriter => p.writers := p.writers + 1;
    case CloseReader =>
      if p.readers > 0 {
        p.readers := p.readers - 1;
      }
    case CloseWriter =>
      if p.writers > 0 {
        p.writers := p.writers - 1;
      }
  }

  /** First in, first out under every interleaving: whatever the order of calls,
      resumptions, opens and closes, the bytes that came out are a prefix of the
      bytes that went in, and each call moved exactly what it reports. */
  method Run(p: PipeSystem, es: seq<Event>)
    requires p.Valid()
    modifies p, p.buf
    ensures p.Valid() && Bytes(p.got) <= Bytes(p.put)
    ensures forall t: nat :: t in p.calls && p.calls[t].WriteDone? && p.calls[t].r > 0 ==>
      By(p.put, t) == p.calls[t].all[..p.calls[t].r]
    ensures forall t: nat :: t in p.calls && p.calls[t].ReadDone? ==> By(p.got, t) == p.calls[t].data
  {
    hide Slot, Ring, By;
    var k := 0;
    while k < |es|
      invariant 0 <= k <= |es| && p.Valid()
    {
      Step(p, es[k]);
      k := k + 1;
    }
  }
}
