/**
 Copying an address space for fork: the child gets its own frame for every page
 of the parent, and a failure gives back every frame taken.
 */
module Fork {
  import opened Octets
  import opened Pmm
  import opened Vmm
  import opened VmmFree

  datatype Outcome = Done | NoMemory | Panic

  /** The mapped pages below a table, through indices less than n. */
  ghost function Pages(at: Layout, pl: Place, n: nat): (s: set<Place>)
    ensures forall q :: q in s <==> q in Below(at, pl, n) && |q.path| == 4
  {
    set q | q in Below(at, pl, n) && |q.path| == 4
  }

  lemma PagesNone(at: Layout, pl: Place)
    ensures Pages(at, pl, 0) == {}
  {
  }

  lemma PagesStep(mem: Memory, at: Layout, pl: Place, i: nat)
    requires Shape(mem, at) && pl in at && |pl.path| < 4
    ensures Child(pl, i) !in at ==> Pages(at, pl, i + 1) == Pages(at, pl, i)
    ensures Child(pl, i) in at && |pl.path| < 3 ==>
      Pages(at, pl, i + 1) == Pages(at, pl, i) + Pages(at, Child(pl, i), 512)
    ensures Child(pl, i) in at && |pl.path| == 3 ==> Pages(at, pl, i + 1) == Pages(at, pl, i) + {Child(pl, i)}
    ensures Pages(at, pl, i) !! Pages(at, Child(pl, i), 512) && Child(pl, i) !in Pages(at, pl, i)
  {
    hide Shape, Below;
    BelowStep(mem, at, pl, i);
    if |pl.path| == 3 {
      LeafBelow(mem, at, Child(pl, i));
    }
  }

  /** The page q of the parent has its copy in the child. */
  ghost predicate Twin(m0: Memory, a0: Layout, mem: Memory, at: Layout, child: nat, q: Place)
    requires Shape(m0, a0) && Shape(mem, at) && q in a0 && |q.path| == 4
  {
    var c := Place(child, q.path);
    && c in at && at[c] in mem && a0[q] in m0 && mem[at[c]] == m0[a0[q]]
    && Pte(mem, at, c).flags == Pte(m0, a0, q).flags && !Pte(mem, at, c).nx
  }

  /** Only the address space of the child has grown. */
  ghost predicate Beside(m0: Memory, a0: Layout, mem: Memory, at: Layout, child: nat) {
    && Shape(m0, a0) && Shape(mem, at)
    && (forall q :: q in a0 ==> q in at && at[q] == a0[q])
    && (forall q :: q in at && q !in a0 ==> q.root == child)
    && (forall q :: q in a0 && |q.path| == 4 && q.root != child ==>
        a0[q] in m0 && a0[q] in mem && mem[a0[q]] == m0[a0[q]] && Pte(mem, at, q) == Pte(m0, a0, q))
  }

  /** Exactly the pages in `done` of the parent were copied into an empty child;
      all other address spaces are as before. */
  ghost predicate Copying(m0: Memory, a0: Layout, mem: Memory, at: Layout, parent: nat, child: nat, done: set<Place>) {
    && Beside(m0, a0, mem, at, child)
    && (forall q :: q in done ==> q in a0 && q.root == parent && |q.path| == 4 && Twin(m0, a0, mem, at, child, q))
    && (forall q :: q in at && q.root == child && |q.path| == 4 ==> Place(parent, q.path) in done)
    && (forall q :: q in at && q.root == child ==> Place(parent, q.path) in a0)
  }

  /** The child has no place that the parent has not, and lacks some page. */
  ghost predicate Partial(a0: Layout, at: Layout, parent: nat, child: nat) {
    && (forall q :: q in at && q.root == child ==> Place(parent, q.path) in a0)
    && exists q :: q in a0 && q.root == parent && Place(child, q.path) !in at
  }

  lemma CopyStart(mem: Memory, at: Layout, parent: nat, child: nat)
    requires Place(parent, []) in at
    requires Shape(mem, at) && forall q :: q in at && q.root == child ==> |q.path| == 0
    ensures Copying(mem, at, mem, at, parent, child, {})
  {
    hide EntryAgrees;
    forall q | q in at ensures at[q] in mem {
      assert NodeOk(mem, at, q);
    }
    forall q | q in at && q.root == child ensures Place(parent, q.path) in at {
      assert q.path == [];
    }
  }

  lemma CopyStep(m0: Memory, a0: Layout, m1: Memory, a1: Layout, m2: Memory, a2: Layout,
                 parent: nat, child: nat, done: set<Place>, q: Place)
    requires Copying(m0, a0, m1, a1, parent, child, done) && parent != child
    requires q in a0 && q.root == parent && |q.path| == 4
    requires Shape(m2, a2) && SamePages(m1, a1, m2, a2, {Place(child, q.path)})
    requires Grew(a1, a2, Place(child, q.path)) && Twin(m1, a1, m2, a2, child, q)
    ensures Copying(m0, a0, m2, a2, parent, child, done + {q})
  {
    hide Shape, Pte;
    forall k | k in done + {q} ensures Twin(m0, a0, m2, a2, child, k) {
      if k != q {
        assert Twin(m0, a0, m1, a1, child, k);
        assert Place(child, k.path) != Place(child, q.path);
        InMemory(m2, a2, Place(child, k.path));
      }
    }
    forall k | k in a0 && |k.path| == 4 && k.root != child
      ensures a0[k] in m2 && m2[a0[k]] == m0[a0[k]] && Pte(m2, a2, k) == Pte(m0, a0, k)
    {
      InMemory(m2, a2, k);
    }
    forall k | k in a2 && k.root == child && |k.path| == 4 ensures Place(parent, k.path) in done + {q} {
    }
    forall k | k in a2 && k.root == child ensures Place(parent, k.path) in a0 {
      if k !in a1 {
        PrefixThere(m0, a0, q, |k.path|);
        assert q.path[..|k.path|] == k.path;
      }
    }
  }

  /** The new places are the page c and tables above it. */
  ghost predicate Grew(at: Layout, at': Layout, c: Place) {
    && (forall q :: q in at ==> q in at' && at'[q] == at[q])
    && (forall q :: q in at' && q !in at ==> q == c || (q.root == c.root && 1 <= |q.path| <= 3 && q.path <= c.path))
  }

  /** Copy one page of the parent into a fresh frame of the child. */
  method CopyPage(
    m: Machine, parent: nat, child: nat, p: seq<nat>, e: Entry, ghost m0: Memory, ghost a0: Layout,
    ghost done: set<Place>)
    returns (r: Outcome)
    requires m.Inv() && Place(child, []) in m.at && |p| == 4 && PathOk(p) && parent != child
    requires Copying(m0, a0, m.mem, m.at, parent, child, done) && Place(parent, p) in a0 && Place(parent, p) !in done
    requires Place(parent, p) in m.at && Place(child, p) !in m.at && e == Pte(m.mem, m.at, Place(parent, p))
    modifies m, m.frames, m.frames.bitmap
    ensures m.Inv() && OtherKept(old(m.mem), m.mem, old(m.other)) && Place(child, []) in m.at
    ensures r != Panic ==> m.other == old(m.other)
    ensures r == NoMemory ==>
      m.mem == old(m.mem) && m.at == old(m.at) && Full(m.frames.InUse()) && Partial(a0, m.at, parent, child)
    ensures r == Panic ==> NoLow(m.frames.InUse())
    ensures r == Done ==> Copying(m0, a0, m.mem, m.at, parent, child, done + {Place(parent, p)})
  {
    hide Accounted, Flags, SamePages, Child, Shape, PathOk, IndexOk, Present, Copying, Twin, Full, NoLow;
    ghost var q := Place(parent, p);
    LeafEntry(m.mem, m.at, q);
    ghost var m1, a1 := m.mem, m.at;
    var f := m.AllocFrame();
    if f == 0 {
      StillPartial(m0, a0, m.mem, m.at, parent, child, done, q);
      return NoMemory;
    }
    UnownedWrite(m.mem, m.at, f, m.mem[e.frame]);
    m.mem := m.mem[f := m.mem[e.frame]];
    ghost var m2 := m.mem;
    assert a1 - {Place(child, p)} == a1;
    var ok := m.MapIn(child, p, f, e.flags, false);
    if !ok {
      return Panic;
    }
    Together(m0, a0, m1, a1, m2, m.mem, m.at, parent, child, done, q, f, e);
    return Done;
  }

  lemma StillPartial(
    m0: Memory, a0: Layout, mem: Memory, at: Layout, parent: nat, child: nat, done: set<Place>, q: Place)
    requires Copying(m0, a0, mem, at, parent, child, done) && q in a0 && q.root == parent && Place(child, q.path) !in at
    ensures Partial(a0, at, parent, child)
  {
    hide Twin, Beside;
  }

  lemma LeafEntry(mem: Memory, at: Layout, q: Place)
    requires Shape(mem, at) && q in at && |q.path| == 4
    ensures Pte(mem, at, q).frame == at[q] && Present(Pte(mem, at, q))
    ensures at[q] in mem && mem[at[q]].DataPage? && PageOk(mem[at[q]])
  {
    hide Present, Huge;
    ParentChild(q);
    assert NodeOk(mem, at, q);
    assert EntryAgrees(mem, at, Parent(q), LastIndex(q));
  }

  lemma PresentOr(f: bv12)
    requires f & PRESENT != 0
    ensures f | PRESENT == f
  {
  }

  lemma Together(m0: Memory, a0: Layout, m1: Memory, a1: Layout, m2: Memory, m3: Memory, a3: Layout,
                 parent: nat, child: nat, done: set<Place>, q: Place, f: nat, e: Entry)
    requires Shape(m1, a1) && Copying(m0, a0, m1, a1, parent, child, done) && parent != child
    requires q in a0 && q in a1 && q.root == parent && |q.path| == 4 && e == Pte(m1, a1, q)
    requires Place(child, q.path) !in a1
    requires f !in a1.Values && a1[q] in m1 && m2 == m1[f := m1[a1[q]]] && Shape(m2, a1) &&
      SamePages(m1, a1, m2, a1, {})
    requires Shape(m3, a3) && SamePages(m2, a1, m3, a3, {Place(child, q.path)})
    requires GrewTables(a1, a3 - {Place(child, q.path)}, child, q.path)
    requires Place(child, q.path) in a3 && a3[Place(child, q.path)] == f && f in m3 && m3[f] == m2[f]
    requires Pte(m3, a3, Place(child, q.path)) == Mapping(f, e.flags, false)
    ensures Copying(m0, a0, m3, a3, parent, child, done + {q})
  {
    hide Shape, Copying, Pte, Present, SamePages, GrewTables;
    var c := Place(child, q.path);
    LeafEntry(m1, a1, q);
    PresentFlags(e);
    SamePagesBut(m1, a1, m2, a1, {c});
    SamePagesTrans(m1, a1, m2, a1, m3, a3, {c});
    GrewWith(a1, a3, c);
    CopyStep(m0, a0, m1, a1, m3, a3, parent, child, done, q);
  }

  lemma PresentFlags(e: Entry)
    requires Present(e)
    ensures e.flags | PRESENT == e.flags
  {
    PresentOr(e.flags);
  }

  lemma GrewWith(at: Layout, at': Layout, c: Place)
    requires c !in at && GrewTables(at, at' - {c}, c.root, c.path)
    ensures Grew(at, at', c)
  {
  }

  lemma InMemory(mem: Memory, at: Layout, q: Place)
    requires Shape(mem, at) && q in at
    ensures at[q] in mem
  {
    assert NodeOk(mem, at, q);
  }

  /** Copy what is mapped below one table of the parent: the nested loops of the
      kernel, one level per call. */
  method CopyBelow(
    m: Machine, parent: nat, child: nat, tbl: nat, p: seq<nat>, ghost m0: Memory, ghost a0: Layout,
    ghost done: set<Place>)
    returns (r: Outcome)
    requires m.Inv() && Place(child, []) in m.at && |p| < 4 && PathOk(p) && parent != child
    requires Copying(m0, a0, m.mem, m.at, parent, child, done) && Place(parent, p) in a0 && a0[Place(parent, p)] == tbl
    requires done !! Pages(a0, Place(parent, p), 512)
    modifies m, m.frames, m.frames.bitmap
    ensures m.Inv() && OtherKept(old(m.mem), m.mem, old(m.other)) && Place(child, []) in m.at
    ensures r != Panic ==> m.other == old(m.other) && Beside(m0, a0, m.mem, m.at, child)
    ensures r == NoMemory ==> Full(m.frames.InUse()) && Partial(a0, m.at, parent, child)
    ensures r == Panic ==> NoLow(m.frames.InUse())
    ensures r == Done ==> Copying(m0, a0, m.mem, m.at, parent, child, done + Pages(a0, Place(parent, p), 512))
    decreases 4 - |p|
  {
    hide Accounted, Flags, SamePages, Child, Shape, PathOk, Present, Copying, Beside, Twin, Pages, Full, NoLow, Partial;
    ghost var pl := Place(parent, p);
    var n := if |p| == 0 then 256 else 512;
    var i: nat := 0;
    PagesNone(a0, pl);
    assert done + {} == done;
    while i < n
      invariant 0 <= i <= n && m.Inv() && Place(child, []) in m.at
      invariant OtherKept(old(m.mem), m.mem, old(m.other)) && m.other == old(m.other)
      invariant Copying(m0, a0, m.mem, m.at, parent, child, done + Pages(a0, pl, i))
    {
      r := CopyEntry(m, parent, child, tbl, p, i, m0, a0, done);
      if r != Done {
        return;
      }
      i := i + 1;
    }
    CopyingParts(m0, a0, m.mem, m.at, parent, child, done + Pages(a0, pl, n));
    if n == 256 {
      UserPages(m0, a0, pl);
    }
    return Done;
  }

  method CopyEntry(
    m: Machine, parent: nat, child: nat, tbl: nat, p: seq<nat>, i: nat, ghost m0: Memory, ghost a0: Layout,
    ghost done: set<Place>)
    returns (r: Outcome)
    requires m.Inv() && Place(child, []) in m.at && |p| < 4 && PathOk(p) && parent != child &&
      IndexOk(Place(parent, p), i)
    requires Place(parent, p) in a0 && a0[Place(parent, p)] == tbl && done !! Pages(a0, Place(parent, p), 512)
    requires Copying(m0, a0, m.mem, m.at, parent, child, done + Pages(a0, Place(parent, p), i))
    modifies m, m.frames, m.frames.bitmap
    ensures m.Inv() && OtherKept(old(m.mem), m.mem, old(m.other)) && Place(child, []) in m.at
    ensures r != Panic ==> m.other == old(m.other) && Beside(m0, a0, m.mem, m.at, child)
    ensures r == NoMemory ==> Full(m.frames.InUse()) && Partial(a0, m.at, parent, child)
    ensures r == Panic ==> NoLow(m.frames.InUse())
    ensures r == Done ==> Copying(m0, a0, m.mem, m.at, parent, child, done + Pages(a0, Place(parent, p), i + 1))
    decreases 4 - |p|, 0
  {
    hide Accounted, Flags, SamePages, Shape, Present, Copying, Beside, Twin, Pages, Full, NoLow, Partial;
    ghost var pl := Place(parent, p);
    ghost var cl, before := Child(pl, i), done + Pages(a0, pl, i);
    CopyingParts(m0, a0, m.mem, m.at, parent, child, before);
    PagesStep(m0, a0, pl, i);
    PagesApart(m0, a0, pl, i, done);
    TableAt(m.mem, m.at, pl, i);
    ChildPath(pl, i);
    ChildParent(pl, i);
    var e := m.mem[tbl].entries[i];
    r := Done;
    if Present(e) {
      if |p| < 3 {
        r := CopyBelow(m, parent, child, e.frame, p + [i], m0, a0, before);
        assert before + Pages(a0, cl, 512) == done + (Pages(a0, pl, i) + Pages(a0, cl, 512));
      } else {
        r := CopyPage(m, parent, child, p + [i], e, m0, a0, before);
        assert before + {cl} == done + (Pages(a0, pl, i) + {cl});
        if r == Done {
          CopyingParts(m0, a0, m.mem, m.at, parent, child, before + {cl});
        }
      }
    }
  }

  lemma CopyingParts(m0: Memory, a0: Layout, mem: Memory, at: Layout, parent: nat, child: nat, done: set<Place>)
    requires Copying(m0, a0, mem, at, parent, child, done) && parent != child
    ensures Beside(m0, a0, mem, at, child) && Shape(m0, a0) && Shape(mem, at)
    ensures forall q: Place :: q.root == parent ==> (q in at <==> q in a0) && (q in a0 ==> at[q] == a0[q])
    ensures forall q :: q in at && q.root == child && |q.path| == 4 ==> Place(parent, q.path) in done
  {
    hide Shape, Twin;
  }

  lemma PagesApart(mem: Memory, at: Layout, pl: Place, i: nat, done: set<Place>)
    requires Shape(mem, at) && pl in at && |pl.path| < 4 && i < 512 && done !! Pages(at, pl, 512)
    ensures (done + Pages(at, pl, i)) !! Pages(at, Child(pl, i), 512)
    ensures Child(pl, i) in at && |pl.path| == 3 ==> Child(pl, i) !in done + Pages(at, pl, i)
  {
    hide Shape, Below;
    PagesStep(mem, at, pl, i);
    forall q | q in Pages(at, Child(pl, i), 512) ensures q !in done {
      ChildOnWay(mem, at, pl, i, q);
      BelowStep(mem, at, pl, i);
      BelowMore(at, pl, i + 1, q);
    }
    if Child(pl, i) in at && |pl.path| == 3 {
      BelowMore(at, pl, i + 1, Child(pl, i));
    }
  }

  lemma UserPages(mem: Memory, at: Layout, pl: Place)
    requires Shape(mem, at) && |pl.path| == 0
    ensures Pages(at, pl, 256) == Pages(at, pl, 512)
  {
    hide EntryAgrees;
    forall q | q in Pages(at, pl, 512) ensures q in Pages(at, pl, 256) {
      assert NodeOk(mem, at, q);
    }
  }

  /** Duplicate every mapped user page of the parent into an empty child. */
  method DuplicateUserSpace(m: Machine, parent: nat, child: nat) returns (r: Outcome)
    requires m.Inv() && Place(parent, []) in m.at && Place(child, []) in m.at && parent != child
    requires forall q :: q in m.at && q.root == child ==> |q.path| == 0
    modifies m, m.frames, m.frames.bitmap
    ensures m.Inv() && OtherKept(old(m.mem), m.mem, old(m.other)) && Place(child, []) in m.at
    ensures r != Panic ==> m.other == old(m.other) && Beside(old(m.mem), old(m.at), m.mem, m.at, child)
    ensures r == NoMemory ==> Full(m.frames.InUse()) && Partial(old(m.at), m.at, parent, child)
    ensures r == Panic ==> NoLow(m.frames.InUse())
    ensures r == Done ==> Duplicated(old(m.mem), old(m.at), m.mem, m.at, parent, child)
  {
    hide Accounted, Flags, SamePages, Shape, Present, Copying, Beside, Twin, Pages, Duplicated, Full, NoLow, Partial;
    ghost var m0, a0 := m.mem, m.at;
    CopyStart(m0, a0, parent, child);
    RootFrame(m0, a0, parent);
    r := CopyBelow(m, parent, child, parent, [], m0, a0, {});
    if r == Done {
      AllCopied(m0, a0, m.mem, m.at, parent, child);
    }
  }

  /** The child has the same pages as the parent, with the same low flags and
      bytes, in frames of its own; the parent is as before. */
  ghost predicate Duplicated(m0: Memory, a0: Layout, mem: Memory, at: Layout, parent: nat, child: nat) {
    && Beside(m0, a0, mem, at, child)
    && (forall p: seq<nat> :: |p| == 4 ==> (Place(child, p) in at <==> Place(parent, p) in a0))
    && (forall q :: q in a0 && q.root == parent && |q.path| == 4 ==> Twin(m0, a0, mem, at, child, q))
    && (forall p, q :: p in at && q in at && p.root == child && q.root != child ==> at[p] != at[q])
  }

  lemma AllCopied(m0: Memory, a0: Layout, mem: Memory, at: Layout, parent: nat, child: nat)
    requires Place(parent, []) in a0 && parent != child
    requires Copying(m0, a0, mem, at, parent, child, {} + Pages(a0, Place(parent, []), 512))
    ensures Duplicated(m0, a0, mem, at, parent, child)
  {
    hide Shape, Pte, Pages, Beside, Twin, Below;
    var done := {} + Pages(a0, Place(parent, []), 512);
    CopyingParts(m0, a0, mem, at, parent, child, done);
    forall q | q in a0 && q.root == parent && |q.path| == 4 ensures q in done {
      PageBelow(m0, a0, q);
    }
    forall p: seq<nat> | |p| == 4 ensures Place(child, p) in at <==> Place(parent, p) in a0 {
      if Place(parent, p) in a0 {
        TwinThere(m0, a0, mem, at, child, Place(parent, p));
      }
    }
    forall p, q | p in at && q in at && p.root == child && q.root != child ensures at[p] != at[q] {
      OneFrame(mem, at, p, q);
    }
  }

  lemma PageBelow(mem: Memory, at: Layout, q: Place)
    requires Shape(mem, at) && q in at && |q.path| == 4
    ensures q in Pages(at, Place(q.root, []), 512)
  {
    hide Shape;
    Indices(mem, at, q);
    assert Strictly(q, Place(q.root, []), 512);
  }

  lemma TwinThere(m0: Memory, a0: Layout, mem: Memory, at: Layout, child: nat, q: Place)
    requires Shape(m0, a0) && Shape(mem, at) && q in a0 && |q.path| == 4 && Twin(m0, a0, mem, at, child, q)
    ensures Place(child, q.path) in at
  {
  }

  /** A write to a page of one address space is not seen in any other. */
  lemma WritesPrivate(mem: Memory, at: Layout, q: Place, bytes: seq<byte>)
    requires Shape(mem, at) && q in at && |q.path| == 4 && |bytes| == 4096
    ensures Shape(mem[at[q] := DataPage(bytes)], at)
    ensures SamePages(mem, at, mem[at[q] := DataPage(bytes)], at, {q})
    ensures Pte(mem[at[q] := DataPage(bytes)], at, q) == Pte(mem, at, q)
  {
    hide Present, Huge, Parent, LastIndex, PathOk, Child;
    var mem' := mem[at[q] := DataPage(bytes)];
    forall k | k in at ensures NodeOk(mem', at, k) {
      assert NodeOk(mem, at, k);
    }
    forall k, i: nat | k in at && |k.path| < 4 && IndexOk(k, i) ensures EntryAgrees(mem', at, k, i) {
      assert EntryAgrees(mem, at, k, i);
    }
    ParentsAreTables(mem, at);
  }

  lemma ParentsAreTables(mem: Memory, at: Layout)
    requires Shape(mem, at)
    ensures forall k, q :: k in at && q in at && |k.path| == 4 && |q.path| == 4 ==>
      Parent(k) in at && at[Parent(k)] != at[q]
  {
    hide NodeOk, EntryAgrees;
  }

  /** The address-space part of fork: on success the child is a copy; when
      frames run out, the cleanup returns every frame taken. */
  method ForkSpace(m: Machine, parent: nat) returns (r: Outcome, child: nat)
    requires m.Inv() && Place(parent, []) in m.at
    modifies m, m.frames, m.frames.bitmap
    ensures m.Inv()
    ensures r == Done ==>
      && m.other == old(m.other) && Place(child, []) !in old(m.at) && Place(child, []) in m.at
      && Duplicated(old(m.mem), old(m.at), m.mem, m.at, parent, child)
    ensures r == NoMemory ==>
      && m.other == old(m.other) && m.at == old(m.at) && m.frames.InUse() == old(m.frames.InUse())
      && SamePages(old(m.mem), old(m.at), m.mem, m.at, {})
      && |m.frames.InUse()| - Count(m.frames.InUse()) < |AddressSpace(m.at, parent)|
    ensures r == Panic ==> NoLow(m.frames.InUse())
  {
    hide Accounted, Flags, SamePages, Shape, Present, Copying, Beside, Twin, Pages, Duplicated, Emptied, AddressSpace,
      Full, NoLow, Partial, Count;
    ghost var m0, a0, u0 := m.mem, m.at, m.frames.InUse();
    var ok;
    ok, child := m.NewPml4();
    if child == 0 {
      if ok {
        CountAll(u0);
        SomeSpace(a0, parent);
      }
      return if ok then NoMemory else Panic, 0;
    }
    NoOrphans(m0, a0, child);
    ghost var m1, a1 := m.mem, m.at;
    r := DuplicateUserSpace(m, parent, child);
    if r == NoMemory {
      ghost var m2, a2, u2 := m.mem, m.at, m.frames.InUse();
      ShortOf(m0, a0, u0, m1, a1, m2, a2, u2, m.other, parent, child);
      FreePml4(m, child);
      Restored(m0, a0, m1, a1, m2, a2, u2, m.mem, m.at, m.frames.InUse(), child);
      SameUse(m.at, u0, m.frames.InUse(), m.other);
    }
    if r == Done {
      DuplicatedFrom(m0, a0, m1, a1, m.mem, m.at, parent, child);
    }
  }

  lemma SomeSpace(at: Layout, r: nat)
    requires Place(r, []) in at
    ensures |AddressSpace(at, r)| > 0
  {
    assert Place(r, []) in AddressSpace(at, r);
  }

  /** As many frames are taken as there are places and kernel frames. */
  lemma {:induction false} CountOwned(u: seq<bool>, held: set<nat>)
    requires forall f :: f in held <==> 0 <= f < |u| && u[f]
    ensures Count(u) == |held|
  {
    if |u| == 0 {
      assert held == {};
    } else {
      var n := |u| - 1;
      CountOwned(u[..n], held - {n});
      assert u[n] ==> held == (held - {n}) + {n};
      assert !u[n] ==> held == held - {n};
    }
  }

  /** A layout gives different places different frames. */
  lemma {:induction false} ValuesSize(mem: Memory, at: Layout, part: set<Place>) returns (fs: set<nat>)
    requires Shape(mem, at) && forall q :: q in part ==> q in at
    ensures |fs| == |part| && forall f :: f in fs <==> exists q :: q in part && at[q] == f
    decreases part
  {
    hide Shape;
    fs := {};
    if part != {} {
      var q :| q in part;
      fs := ValuesSize(mem, at, part - {q});
      forall k | k in part - {q} ensures at[k] != at[q] {
        OneFrame(mem, at, k, q);
      }
      assert at[q] !in fs;
      fs := fs + {at[q]};
      assert part == (part - {q}) + {q};
    }
  }

  lemma OneFrame(mem: Memory, at: Layout, k: Place, q: Place)
    requires Shape(mem, at) && k in at && q in at && k != q
    ensures at[k] != at[q]
  {
    hide NodeOk, EntryAgrees;
  }

  /** Taken frames: the kernel's and one for every place. */
  lemma CountPlaces(mem: Memory, at: Layout, u: seq<bool>, other: set<nat>)
    requires Shape(mem, at) && Accounted(at, u, other)
    ensures Count(u) == |other| + |at.Keys|
  {
    hide Shape, Count;
    var fs := ValuesSize(mem, at, at.Keys);
    assert fs !! other;
    CountOwned(u, fs + other);
  }

  /** Renaming the root of places keeps their number. */
  lemma {:induction false} RenamedSize(s: set<Place>, t: set<Place>, child: nat, parent: nat)
    requires forall q :: q in s ==> q.root == child && Place(parent, q.path) in t
    ensures |s| <= |t|
    decreases s
  {
    if s != {} {
      var q :| q in s;
      var q' := Place(parent, q.path);
      forall k | k in s - {q} ensures Place(parent, k.path) in t - {q'} {
        assert k.path != q.path;
      }
      RenamedSize(s - {q}, t - {q'}, child, parent);
    }
  }

  /** When the copy ran out of frames, fewer had been free than the parent holds. */
  lemma ShortOf(m0: Memory, a0: Layout, u0: seq<bool>, m1: Memory, a1: Layout, m2: Memory, a2: Layout, u2: seq<bool>,
                other: set<nat>, parent: nat, child: nat)
    requires Shape(m0, a0) && Accounted(a0, u0, other) && Shape(m2, a2) && Accounted(a2, u2, other)
    requires Full(u2) && |u2| == |u0| && a1 == a0[Place(child, []) := child] && Beside(m1, a1, m2, a2, child)
    requires Partial(a1, a2, parent, child) && parent != child && forall q :: q in a0 ==> q.root != child
    ensures |u0| - Count(u0) < |AddressSpace(a0, parent)|
  {
    hide Shape, Accounted, Count, Full, AddressSpace;
    CountPlaces(m0, a0, u0, other);
    CountPlaces(m2, a2, u2, other);
    CountAll(u2);
    var added, mine := AddressSpace(a2, child), AddressSpace(a0, parent);
    assert a2.Keys == a0.Keys + added;
    assert a0.Keys !! added;
    var q :| q in a1 && q.root == parent && Place(child, q.path) !in a2;
    forall k | k in added ensures Place(parent, k.path) in mine - {q} {
      assert Place(parent, k.path) in a1;
    }
    RenamedSize(added, mine - {q}, child, parent);
    assert q in mine;
  }

  lemma NoOrphans(mem: Memory, at: Layout, r: nat)
    requires Shape(mem, at) && Place(r, []) !in at
    ensures forall q :: q in at ==> q.root != r
  {
    hide NodeOk, EntryAgrees;
    forall q | q in at ensures q.root != r {
      PrefixThere(mem, at, q, 0);
    }
  }

  lemma SameUse(at: Layout, u: seq<bool>, u': seq<bool>, other: set<nat>)
    requires Accounted(at, u, other) && Accounted(at, u', other) && |u| == |u'|
    ensures u == u'
  {
  }

  /** Freeing a half-filled child leaves what was there before it. */
  lemma Restored(m0: Memory, a0: Layout, m1: Memory, a1: Layout, m2: Memory, a2: Layout, u2: seq<bool>,
                 m3: Memory, a3: Layout, u3: seq<bool>, child: nat)
    requires Shape(m0, a0) && Shape(m1, a1) && SamePages(m0, a0, m1, a1, {}) && a1 == a0[Place(child, []) := child]
    requires forall q :: q in a0 ==> q.root != child
    requires Beside(m1, a1, m2, a2, child)
    requires Emptied(m2, a2, u2, m3, a3, u3, child, AddressSpace(a2, child))
    ensures a3 == a0 && Shape(m3, a3) && SamePages(m0, a0, m3, a3, {})
  {
    hide Shape, Pte, Returned, OnlyRootChanged;
    assert a3 == a0;
  }

  lemma DuplicatedFrom(m0: Memory, a0: Layout, m1: Memory, a1: Layout, mem: Memory, at: Layout, parent: nat, child: nat)
    requires Shape(m0, a0) && Shape(m1, a1) && SamePages(m0, a0, m1, a1, {}) && a1 == a0[Place(child, []) := child]
    requires Duplicated(m1, a1, mem, at, parent, child) && parent != child && forall q :: q in a0 ==> q.root != child
    ensures Duplicated(m0, a0, mem, at, parent, child)
  {
    hide Shape, Pte;
    forall q | q in a0 && |q.path| == 4
      ensures a0[q] in m0 && a0[q] in m1 && m1[a0[q]] == m0[a0[q]] && Pte(m1, a1, q) == Pte(m0, a0, q)
    {
      InMemory(m0, a0, q);
      InMemory(m1, a1, q);
    }
  }

  // ----- runs -----

  datatype Request =
    | NewSpace
    | MapFresh(root: nat, path: seq<nat>, flags: bv12, nx: bool)
    | Protect(root: nat, path: seq<nat>, flags: bv12, nx: bool)
    | Unmap(root: nat)
    | Free(root: nat)
    | ForkOf(root: nat)

  ghost predicate Roots(at: Layout, roots: set<nat>) {
    forall r :: r in roots <==> Place(r, []) in at
  }

  function ZeroPage(): (p: Page)
    ensures PageOk(p) && p.DataPage? && forall k :: 0 <= k < 4096 ==> p.bytes[k] == 0
  {
    DataPage(seq(4096, _ => 0))
  }

  /** Map a page to a fresh zeroed frame. Callers that look first, as mmap and the
      loader do, lose nothing; the stack setup does not look. */
  method MapZeroed(m: Machine, root: nat, p: seq<nat>, flags: bv12, nx: bool) returns (r: Outcome)
    requires m.Inv() && Place(root, []) in m.at && |p| == 4 && PathOk(p)
    modifies m, m.frames, m.frames.bitmap
    ensures m.Inv() && OtherKept(old(m.mem), m.mem, old(m.other))
    ensures SamePages(old(m.mem), old(m.at), m.mem, m.at, {Place(root, p)})
    ensures r == NoMemory ==>
      && m.mem == old(m.mem) && m.at == old(m.at) && m.other == old(m.other)
      && m.frames.InUse() == old(m.frames.InUse()) && Full(m.frames.InUse())
    ensures r == Panic ==> NoLow(m.frames.InUse()) && Place(root, p) !in old(m.at) && Place(root, p) !in m.at
    ensures r == Done ==>
      && Place(root, p) in m.at && m.at[Place(root, p)] in m.mem && m.mem[m.at[Place(root, p)]] == ZeroPage()
      && Pte(m.mem, m.at, Place(root, p)) == Mapping(m.at[Place(root, p)], flags, nx)
      && m.other == old(m.other) + Held(old(m.at), Place(root, p))
    ensures GrewTables(old(m.at) - {Place(root, p)}, m.at - {Place(root, p)}, root, p)
  {
    hide Accounted, Flags, SamePages, Shape, PathOk, Present, ZeroPage, GrewTables, Full, NoLow, Held;
    ghost var m0, a0, pl := m.mem, m.at, Place(root, p);
    SamePagesSelf(m0, a0);
    SamePagesBut(m0, a0, m0, a0, {pl});
    GrewNone(a0 - {pl}, pl);
    ghost var o0 := m.other;
    var f := m.AllocFrame();
    if f == 0 {
      return NoMemory;
    }
    UnownedWrite(m.mem, m.at, f, ZeroPage());
    m.mem := m.mem[f := ZeroPage()];
    ghost var m1 := m.mem;
    SamePagesBut(m0, a0, m1, a0, {pl});
    assert o0 + {f} - {f} == o0;
    var ok := m.MapIn(root, p, f, flags, nx);
    SamePagesTrans(m0, a0, m1, a0, m.mem, m.at, {pl});
    r := if ok then Done else Panic;
  }

  lemma GrewNone(at: Layout, pl: Place)
    requires pl !in at
    ensures GrewTables(at, at, pl.root, pl.path)
  {
  }

  /** The machine between two requests. */
  datatype Snap = Snap(mem: Memory, at: Layout, inUse: seq<bool>, other: set<nat>)

  ghost function SnapOf(m: Machine): Snap
    requires m.frames.Valid()
    reads m, m.frames, m.frames.bitmap
  {
    Snap(m.mem, m.at, m.frames.InUse(), m.other)
  }

  predicate IsPage(at: Layout, root: nat, path: seq<nat>) { Place(root, []) in at && |path| == 4 && PathOk(path) }

  /** The frame that a request leaves in use without an owner: that of a page which
      was mapped when a fresh frame was mapped over it. */
  ghost function Lost(at: Layout, q: Request, r: Outcome): (s: set<nat>) {
    if q.MapFresh? && r == Done && IsPage(at, q.root, q.path) then Held(at, Place(q.root, q.path)) else {}
  }

  /** What a request that did not panic does. */
  ghost predicate Served(s: Snap, q: Request, r: Outcome, s': Snap) {
    && Shape(s.mem, s.at) && Shape(s'.mem, s'.at)
    && s'.other == s.other + Lost(s.at, q, r) && Lost(s.at, q, r) !! s.other
    && match q
       case NewSpace => SpaceAdded(s, s')
       case MapFresh(root, path, flags, nx) =>
         if !IsPage(s.at, root, path) then s' == s
         else if r == Done then PageMapped(s, s', Place(root, path), flags, nx) else s' == s && Full(s.inUse)
       case Protect(root, path, flags, nx) =>
         if !IsPage(s.at, root, path) || Place(root, path) !in s.at then s' == s
         else PageReflagged(s, s', Place(root, path), flags, nx)
       case Unmap(root) =>
         if Place(root, []) !in s.at then s' == s
         else Emptied(s.mem, s.at, s.inUse, s'.mem, s'.at, s'.inUse, root, UserHalf(s.at, root))
       case Free(root) =>
         if Place(root, []) !in s.at then s' == s
         else Emptied(s.mem, s.at, s.inUse, s'.mem, s'.at, s'.inUse, root, AddressSpace(s.at, root))
       case ForkOf(root) =>
         if Place(root, []) !in s.at then s' == s
         else if r == Done then exists child: nat ::
           Place(child, []) !in s.at && Duplicated(s.mem, s.at, s'.mem, s'.at, root, child)
         else s'.at == s.at && s'.inUse == s.inUse && SamePages(s.mem, s.at, s'.mem, s'.at, {})
  }

  /** An empty address space more, or none when every frame is taken. */
  ghost predicate SpaceAdded(s: Snap, s': Snap)
    requires Shape(s.mem, s.at) && Shape(s'.mem, s'.at)
  {
    && SamePages(s.mem, s.at, s'.mem, s'.at, {})
    && ((s' == s && Full(s.inUse))
        || exists root: nat :: Place(root, []) !in s.at && s'.at == s.at[Place(root, []) := root])
  }

  /** The page reads zero and has these flags; every other page is as before. */
  ghost predicate PageMapped(s: Snap, s': Snap, pl: Place, flags: bv12, nx: bool)
    requires Shape(s.mem, s.at) && Shape(s'.mem, s'.at) && |pl.path| == 4
  {
    && SamePages(s.mem, s.at, s'.mem, s'.at, {pl}) && GrewTables(s.at - {pl}, s'.at - {pl}, pl.root, pl.path)
    && pl in s'.at && s'.at[pl] in s'.mem && s'.mem[s'.at[pl]] == ZeroPage()
    && Pte(s'.mem, s'.at, pl) == Mapping(s'.at[pl], flags, nx)
  }

  ghost predicate PageReflagged(s: Snap, s': Snap, pl: Place, flags: bv12, nx: bool)
    requires Shape(s.mem, s.at) && Shape(s'.mem, s'.at) && |pl.path| == 4 && pl in s.at
  {
    && s'.at == s.at && s'.inUse == s.inUse && SamePages(s.mem, s.at, s'.mem, s'.at, {pl})
    && Pte(s'.mem, s'.at, pl) == Mapping(s.at[pl], flags, nx)
    && s.at[pl] in s.mem && s.at[pl] in s'.mem && s'.mem[s.at[pl]] == s.mem[s.at[pl]]
  }

  lemma LostApart(at: Layout, inUse: seq<bool>, other: set<nat>, pl: Place)
    requires Accounted(at, inUse, other)
    ensures Held(at, pl) !! other
  {
  }

  /** The root of a user address space is neither null nor the kernel's. */
  lemma UserRoot(mem: Memory, at: Layout, inUse: seq<bool>, other: set<nat>, root: nat)
    requires Shape(mem, at) && Accounted(at, inUse, other) && Place(root, []) in at
    ensures root !in other
  {
    RootFrame(mem, at, root);
    NotOther(at, inUse, other, Place(root, []));
  }

  /** One request; requests on address spaces that are not there are refused. */
  method Serve(m: Machine, q: Request, roots: set<nat>) returns (r: Outcome, roots': set<nat>)
    requires m.Inv() && Roots(m.at, roots)
    modifies m, m.frames, m.frames.bitmap
    ensures m.Inv() && (r != Panic ==> Roots(m.at, roots') && Served(old(SnapOf(m)), q, r, SnapOf(m)))
    ensures r == Panic ==> NoLow(m.frames.InUse())
  {
    hide Accounted, Flags, SamePages, Shape, PathOk, Present, Emptied, Beside, Duplicated, GrewTables, Full, NoLow,
      Count, ZeroPage, Held, UserHalf, AddressSpace;
    r, roots' := Done, roots;
    assert m.other + {} == m.other;
    match q
    case NewSpace =>
      var ok, root := m.NewPml4();
      if root != 0 {
        roots' := roots + {root};
      }
      r := if ok then Done else Panic;
    case MapFresh(root, path, flags, nx) =>
      if root in roots && |path| == 4 && PathOk(path) {
        ghost var a0 := m.at;
        LostApart(a0, m.frames.InUse(), m.other, Place(root, path));
        r := MapZeroed(m, root, path, flags, nx);
        RootsGrew(a0, m.at, Place(root, path), roots);
      }
    case Protect(root, path, flags, nx) =>
      if root in roots && |path| == 4 && PathOk(path) {
        ghost var m0 := m.mem;
        var _ := m.SetFlags(root, path, flags, nx);
        if Place(root, path) in m.at {
          InMemory(m.mem, m.at, Place(root, path));
        }
      }
    case Unmap(root) =>
      if root in roots {
        ghost var m0, a0, u0 := m.mem, m.at, m.frames.InUse();
        UserRoot(m0, a0, u0, m.other, root);
        UnmapUserSpace(m, root);
        EmptiedLayout(m0, a0, u0, m.mem, m.at, m.frames.InUse(), root, UserHalf(a0, root));
        RootsStay(a0, m.at, root, roots);
      }
    case Free(root) =>
      if root in roots {
        ghost var m0, a0, u0 := m.mem, m.at, m.frames.InUse();
        UserRoot(m0, a0, u0, m.other, root);
        FreePml4(m, root);
        EmptiedLayout(m0, a0, u0, m.mem, m.at, m.frames.InUse(), root, AddressSpace(a0, root));
        RootGoes(a0, m.at, root, roots);
        roots' := roots - {root};
      }
    case ForkOf(root) =>
      if root in roots {
        var child;
        ghost var m0, a0 := m.mem, m.at;
        r, child := ForkSpace(m, root);
        if r == Done {
          roots' := roots + {child};
          RootsForked(m0, a0, m.mem, m.at, root, child, roots);
        }
      }
  }

  lemma RootsStay(at: Layout, at': Layout, root: nat, roots: set<nat>)
    requires Roots(at, roots) && at' == at - UserHalf(at, root)
    ensures Roots(at', roots)
  {
  }

  lemma RootGoes(at: Layout, at': Layout, root: nat, roots: set<nat>)
    requires Roots(at, roots) && at' == at - AddressSpace(at, root)
    ensures Roots(at', roots - {root})
  {
  }

  lemma RootsGrew(at: Layout, at': Layout, pl: Place, roots: set<nat>)
    requires Roots(at, roots) && |pl.path| == 4 && GrewTables(at - {pl}, at' - {pl}, pl.root, pl.path)
    ensures Roots(at', roots)
  {
    forall r: nat ensures Place(r, []) in at' <==> Place(r, []) in at {
      assert Place(r, []) in at' <==> Place(r, []) in at' - {pl};
      assert Place(r, []) in at <==> Place(r, []) in at - {pl};
    }
  }

  lemma RootsForked(m0: Memory, a0: Layout, mem: Memory, at: Layout, parent: nat, child: nat, roots: set<nat>)
    requires Roots(a0, roots) && Duplicated(m0, a0, mem, at, parent, child) && Place(child, []) in at
    ensures Roots(at, roots + {child})
  {
    hide Shape, Twin;
  }

  /** How many of the first n requests lost a frame. */
  ghost function Losses(trace: seq<Snap>, reqs: seq<Request>, rs: seq<Outcome>, n: nat): (c: nat)
    requires n <= |trace| && n <= |reqs| && n <= |rs|
  {
    if n == 0 then 0
    else Losses(trace, reqs, rs, n - 1) + if Lost(trace[n - 1].at, reqs[n - 1], rs[n - 1]) == {} then 0 else 1
  }

  lemma {:induction false} NoLosses(trace: seq<Snap>, reqs: seq<Request>, rs: seq<Outcome>, n: nat)
    requires n <= |trace| && n <= |reqs| && n <= |rs|
    ensures Losses(trace, reqs, rs, n) == 0 <==> forall k :: 0 <= k < n ==> Lost(trace[k].at, reqs[k], rs[k]) == {}
  {
    hide Lost;
    if n > 0 {
      NoLosses(trace, reqs, rs, n - 1);
    }
  }

  lemma {:induction false} LossesSame(
    trace: seq<Snap>, trace': seq<Snap>, reqs: seq<Request>, rs: seq<Outcome>, rs': seq<Outcome>, n: nat)
    requires n <= |reqs| && n <= |trace| && trace <= trace' && n <= |rs| && rs <= rs'
    ensures Losses(trace', reqs, rs', n) == Losses(trace, reqs, rs, n)
  {
    hide Lost;
    if n > 0 {
      LossesSame(trace, trace', reqs, rs, rs', n - 1);
    }
  }

  lemma OneMoreServed(
    trace: seq<Snap>, trace': seq<Snap>, reqs: seq<Request>, rs: seq<Outcome>, rs': seq<Outcome>, n: nat)
    requires n < |reqs| && |trace| == n + 1 && trace <= trace' && |rs| == n && n < |rs'| && rs <= rs'
    ensures Losses(trace', reqs, rs', n + 1)
         == Losses(trace, reqs, rs, n) + if Lost(trace[n].at, reqs[n], rs'[n]) == {} then 0 else 1
  {
    hide Lost;
    LossesSame(trace, trace', reqs, rs, rs', n);
  }

  lemma OneLost(other: set<nat>, at: Layout, q: Request, r: Outcome)
    requires Lost(at, q, r) !! other
    ensures |other + Lost(at, q, r)| == |other| + if Lost(at, q, r) == {} then 0 else 1
  {
    if Lost(at, q, r) != {} {
      var f := at[Place(q.root, q.path)];
      assert Lost(at, q, r) == {f} && other + Lost(at, q, r) == other + {f};
    } else {
      assert other + {} == other;
    }
  }

  /** A fresh page over a mapped one: its frame stays in use and no place has it. */
  lemma OverwriteLoses(s: Snap, s': Snap, root: nat, path: seq<nat>, flags: bv12, nx: bool)
    requires IsPage(s.at, root, path) && Place(root, path) in s.at
    requires Served(s, MapFresh(root, path, flags, nx), Done, s') && Accounted(s'.at, s'.inUse, s'.other)
    ensures var f := s.at[Place(root, path)];
      && s'.other == s.other + {f} && f !in s.other && |s'.other| == |s.other| + 1
      && f < |s'.inUse| && s'.inUse[f] && f !in s'.at.Values
  {
    hide PageMapped, Shape, PathOk;
    var f := s.at[Place(root, path)];
    assert f in s'.other && s'.other == s.other + {f};
  }

  /** Over every run from boot, each frame in use is held by the kernel, is lost, or
      is exactly one node of one address space, and the reported count is right. The
      frames lost are counted by the requests that mapped a mapped page: none is
      lost if and only if there was no such request. Only a panic, which halts the
      machine, ends a run early. */
  method Run(m: Machine, reqs: seq<Request>)
    returns (done: nat, roots: set<nat>, rs: seq<Outcome>, ghost trace: seq<Snap>)
    requires m.Inv() && m.at == map[]
    modifies m, m.frames, m.frames.bitmap
    ensures m.Inv() && done <= |reqs| && |rs| == done && |trace| == done + 1 && trace[0] == old(SnapOf(m))
    ensures forall k :: 0 <= k < done ==> Served(trace[k], reqs[k], rs[k], trace[k + 1])
    ensures done == |reqs| ==>
      && trace[done] == SnapOf(m) && Roots(m.at, roots)
      && old(m.other) <= m.other && |m.other| == |old(m.other)| + Losses(trace, reqs, rs, done)
      && (m.other == old(m.other) <==> forall k :: 0 <= k < done ==> Lost(trace[k].at, reqs[k], rs[k]) == {})
    ensures done < |reqs| ==> NoLow(m.frames.InUse())
    ensures m.frames.used == Count(m.frames.InUse())
  {
    hide Accounted, Flags, Shape, NoLow, Lost, Roots, Served, Losses;
    done, roots, rs, trace := 0, {}, [], [SnapOf(m)];
    NoRoots();
    NoLosses(trace, reqs, rs, 0);
    while done < |reqs|
      invariant done <= |reqs| && m.Inv() && Roots(m.at, roots)
      invariant |rs| == done && |trace| == done + 1 && trace[0] == old(SnapOf(m)) && trace[done] == SnapOf(m)
      invariant forall k :: 0 <= k < done ==> Served(trace[k], reqs[k], rs[k], trace[k + 1])
      invariant old(m.other) <= m.other && |m.other| == |old(m.other)| + Losses(trace, reqs, rs, done)
    {
      ghost var s, rs0, trace0 := SnapOf(m), rs, trace;
      var r;
      r, roots := Serve(m, reqs[done], roots);
      if r == Panic {
        return;
      }
      Gone(s, reqs[done], r, SnapOf(m));
      rs, trace := rs + [r], trace + [SnapOf(m)];
      OneMoreServed(trace0, trace, reqs, rs0, rs, done);
      done := done + 1;
    }
    SameSize(old(m.other), m.other);
    NoLosses(trace, reqs, rs, done);
  }

  lemma NoRoots()
    ensures Roots(map[], {})
  {
  }

  lemma Gone(s: Snap, q: Request, r: Outcome, s': Snap)
    requires Served(s, q, r, s')
    ensures s.other <= s'.other && |s'.other| == |s.other| + if Lost(s.at, q, r) == {} then 0 else 1
  {
    hide Lost, Shape;
    OneLost(s.other, s.at, q, r);
  }

  lemma SameSize(a: set<nat>, b: set<nat>)
    requires a <= b
    ensures a == b <==> |a| == |b|
  {
    if a != b {
      var x :| x in b && x !in a;
      assert a <= b - {x};
      Smaller(a, b - {x});
    }
  }

  lemma {:induction false} Smaller(a: set<nat>, b: set<nat>)
    requires a <= b
    ensures |a| <= |b|
  {
    if x :| x in a {
      Smaller(a - {x}, b - {x});
    }
  }
}
