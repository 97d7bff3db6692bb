/**
 Taking an address space apart: every data and table frame of its user half is
 given back, each once, and nothing else.
 */
module VmmFree {
  import opened Pmm
  import opened Vmm

  /** q lies strictly below pl, through an index less than n. */
  ghost predicate Strictly(q: Place, pl: Place, n: nat) {
    q.root == pl.root && pl.path < q.path && q.path[|pl.path|] < n
  }

  ghost function Below(at: Layout, pl: Place, n: nat): (s: set<Place>)
    ensures forall q :: q in s <==> q in at && Strictly(q, pl, n)
  {
    set q | q in at && Strictly(q, pl, n)
  }

  lemma StrictlyStep(mem: Memory, at: Layout, pl: Place, i: nat, q: Place)
    requires Shape(mem, at) && pl in at && q in at
    ensures Strictly(q, pl, i + 1) ==>
      Strictly(q, pl, i) || (Child(pl, i) in at && (q == Child(pl, i) || Strictly(q, Child(pl, i), 512)))
    ensures Strictly(q, pl, i) || q == Child(pl, i) || Strictly(q, Child(pl, i), 512) ==> Strictly(q, pl, i + 1)
    ensures !(Strictly(q, pl, i) && Strictly(q, Child(pl, i), 512)) && !Strictly(Child(pl, i), pl, i)
  {
    hide Shape, NodeOk, EntryAgrees;
    var n := |pl.path|;
    assert Child(pl, i).path[n] == i;
    if Strictly(q, pl, i + 1) && !Strictly(q, pl, i) {
      PrefixThere(mem, at, q, n + 1);
      Indices(mem, at, q);
      assert q.path[..n + 1] == Child(pl, i).path;
    }
  }

  lemma Indices(mem: Memory, at: Layout, q: Place)
    requires Shape(mem, at) && q in at
    ensures forall k :: 0 <= k < |q.path| ==> q.path[k] < 512
  {
    assert NodeOk(mem, at, q);
  }

  /** One more index adds that child and what is below it. */
  lemma BelowStep(mem: Memory, at: Layout, pl: Place, i: nat)
    requires Shape(mem, at) && pl in at
    ensures Child(pl, i) in at ==>
      Below(at, pl, i + 1) == Below(at, pl, i) + (Below(at, Child(pl, i), 512) + {Child(pl, i)})
    ensures Child(pl, i) !in at ==> Below(at, pl, i + 1) == Below(at, pl, i)
    ensures Below(at, pl, i) !! Below(at, Child(pl, i), 512) && Child(pl, i) !in Below(at, pl, i)
  {
    hide Shape, Strictly, Child;
    forall q | q in at
      ensures Strictly(q, pl, i + 1) <==>
        Strictly(q, pl, i) || (Child(pl, i) in at && (q == Child(pl, i) || Strictly(q, Child(pl, i), 512)))
      ensures !(Strictly(q, pl, i) && Strictly(q, Child(pl, i), 512)) && !Strictly(Child(pl, i), pl, i)
    {
      StrictlyStep(mem, at, pl, i, q);
      if Strictly(q, Child(pl, i), 512) {
        ChildOnWay(mem, at, pl, i, q);
      }
    }
  }

  lemma ChildOnWay(mem: Memory, at: Layout, pl: Place, i: nat, q: Place)
    requires Shape(mem, at) && q in at && Strictly(q, Child(pl, i), 512)
    ensures Child(pl, i) in at
  {
    PrefixThere(mem, at, q, |pl.path| + 1);
    assert q.path[..|pl.path| + 1] == Child(pl, i).path;
  }

  /** Between two states of the allocator exactly the frames of the places in
      `gone` were given back, all of which had been in use. */
  ghost predicate Returned(at: Layout, inUse: seq<bool>, inUse': seq<bool>, gone: set<Place>) {
    && |inUse'| == |inUse| && gone <= at.Keys
    && (forall q :: q in gone ==> at[q] < |inUse| && inUse[at[q]] && !inUse'[at[q]])
    && (forall f :: 0 <= f < |inUse| && inUse'[f] != inUse[f] ==> exists q :: q in gone && at[q] == f)
  }

  lemma ReturnedTrans(at: Layout, a: seq<bool>, b: seq<bool>, c: seq<bool>, g: set<Place>, h: set<Place>)
    requires Returned(at, a, b, g) && Returned(at, b, c, h)
    ensures Returned(at, a, c, g + h)
  {
    forall f | 0 <= f < |a| && c[f] != a[f] ensures exists q :: q in g + h && at[q] == f {
      if b[f] != a[f] {
        var q :| q in g && at[q] == f;
      } else {
        var q :| q in h && at[q] == f;
      }
    }
  }

  /** Frames of places not in `gone` are still in use. */
  lemma StillInUse(mem: Memory, at: Layout, a: seq<bool>, b: seq<bool>, gone: set<Place>, q: Place)
    requires Shape(mem, at) && Returned(at, a, b, gone) && q in at && q !in gone && at[q] < |a| && a[at[q]]
    ensures b[at[q]]
  {
    hide NodeOk, EntryAgrees;
  }

  lemma ReturnedOne(at: Layout, a: seq<bool>, q: Place)
    requires q in at && at[q] < |a| && a[at[q]]
    ensures Returned(at, a, a[at[q] := false], {q})
  {
  }

  lemma ReturnedNone(at: Layout, a: seq<bool>)
    ensures Returned(at, a, a, {})
  {
  }

  /** All frames of these places are in use. */
  ghost predicate AllHeld(at: Layout, inUse: seq<bool>, s: set<Place>) {
    forall q :: q in at && q in s ==> at[q] < |inUse| && inUse[at[q]]
  }

  lemma BelowNothing(at: Layout, pl: Place)
    ensures Below(at, pl, 0) == {}
  {
  }

  lemma LeafBelow(mem: Memory, at: Layout, pl: Place)
    requires Shape(mem, at) && |pl.path| == 4
    ensures Below(at, pl, 512) == {}
  {
    forall q | q in at ensures !Strictly(q, pl, 512) {
      assert NodeOk(mem, at, q);
    }
  }

  /** While a table is being emptied, the next child and what is below it are
      still in use. */
  lemma ChildHeld(mem: Memory, at: Layout, a: seq<bool>, b: seq<bool>, pl: Place, i: nat)
    requires Shape(mem, at) && pl in at && i < 512 && Child(pl, i) in at
    requires AllHeld(at, a, Below(at, pl, 512)) && Returned(at, a, b, Below(at, pl, i))
    ensures AllHeld(at, b, Below(at, Child(pl, i), 512)) && AllHeld(at, b, {Child(pl, i)})
  {
    hide Shape, Returned, Child, Strictly;
    BelowStep(mem, at, pl, i);
    forall q | q in Below(at, Child(pl, i), 512) + {Child(pl, i)} ensures at[q] < |b| && b[at[q]] {
      assert q in Below(at, pl, i + 1) && q !in Below(at, pl, i);
      BelowMore(at, pl, i + 1, q);
      SameLength(at, a, b, Below(at, pl, i));
      StillInUse(mem, at, a, b, Below(at, pl, i), q);
    }
  }

  lemma BelowMore(at: Layout, pl: Place, n: nat, q: Place)
    requires n <= 512 && q in Below(at, pl, n)
    ensures q in Below(at, pl, 512)
  {
  }

  lemma SameLength(at: Layout, a: seq<bool>, b: seq<bool>, gone: set<Place>)
    requires Returned(at, a, b, gone)
    ensures |a| == |b|
  {
  }

  lemma NotBelowItself(at: Layout, pl: Place)
    ensures pl !in Below(at, pl, 512)
  {
  }

  method FreeNumbered(frames: FrameAllocator, f: nat)
    requires frames.Valid()
    modifies frames, frames.bitmap
    ensures frames.Valid()
    ensures frames.InUse() == if f < frames.total then old(frames.InUse())[f := false] else old(frames.InUse())
  {
    hide Flags, Count;
    frames.Free(f * 4096);
  }

  /** Free everything below a table: the nested loops of the driver, one level
      per call. The tables are only read. */
  method FreeBelow(m: Machine, tbl: nat, depth: nat, ghost pl: Place)
    requires depth == |pl.path| && m.frames.Valid() && Shape(m.mem, m.at) && pl in m.at && m.at[pl] == tbl &&
      1 <= |pl.path| < 4
    requires AllHeld(m.at, m.frames.InUse(), Below(m.at, pl, 512))
    modifies m.frames, m.frames.bitmap
    ensures m.frames.Valid() && Returned(m.at, old(m.frames.InUse()), m.frames.InUse(), Below(m.at, pl, 512))
    decreases 4 - |pl.path|
  {
    hide Shape, Strictly, Flags, Returned, Present, AllHeld, Below, Child;
    ghost var a := m.frames.InUse();
    BelowNothing(m.at, pl);
    ReturnedNone(m.at, a);
    var i: nat := 0;
    while i < 512
      invariant 0 <= i <= 512 && m.frames.Valid()
      invariant Returned(m.at, a, m.frames.InUse(), Below(m.at, pl, i))
    {
      TableAt(m.mem, m.at, pl, i);
      BelowStep(m.mem, m.at, pl, i);
      var e := m.mem[tbl].entries[i];
      if Present(e) {
        FreeChild(m, e.frame, depth + 1, pl, i, a);
      }
      i := i + 1;
    }
  }

  /** Free one child of a table, after what is below it. */
  method FreeChild(m: Machine, frame: nat, depth: nat, ghost pl: Place, ghost i: nat, ghost a: seq<bool>)
    requires m.frames.Valid() && Shape(m.mem, m.at) && pl in m.at && 1 <= |pl.path| < 4 && IndexOk(pl, i)
    requires Child(pl, i) in m.at && m.at[Child(pl, i)] == frame && depth == |pl.path| + 1
    requires AllHeld(m.at, a, Below(m.at, pl, 512))
    requires Returned(m.at, a, m.frames.InUse(), Below(m.at, pl, i))
    modifies m.frames, m.frames.bitmap
    ensures m.frames.Valid() && Returned(m.at, a, m.frames.InUse(), Below(m.at, pl, i + 1))
    decreases 4 - |pl.path|, 0
  {
    hide Shape, Strictly, Flags, Returned, Present, AllHeld, Below;
    ghost var cl, b := Child(pl, i), m.frames.InUse();
    BelowStep(m.mem, m.at, pl, i);
    ChildHeld(m.mem, m.at, a, b, pl, i);
    if depth < 4 {
      FreeBelow(m, frame, depth, cl);
    } else {
      LeafBelow(m.mem, m.at, cl);
      ReturnedNone(m.at, b);
    }
    ghost var c := m.frames.InUse();
    OneMore(m.mem, m.at, a, b, c, pl, i);
    FreeNumbered(m.frames, frame);
  }

  lemma OneMore(mem: Memory, at: Layout, a: seq<bool>, b: seq<bool>, c: seq<bool>, pl: Place, i: nat)
    requires Shape(mem, at) && pl in at && Child(pl, i) in at && AllHeld(at, b, {Child(pl, i)})
    requires Returned(at, a, b, Below(at, pl, i)) && Returned(at, b, c, Below(at, Child(pl, i), 512))
    ensures at[Child(pl, i)] < |c| && Returned(at, a, c[at[Child(pl, i)] := false], Below(at, pl, i + 1))
  {
    hide Shape, Strictly, Returned, Below, Child;
    var cl := Child(pl, i);
    BelowStep(mem, at, pl, i);
    NotBelowItself(at, cl);
    SameLength(at, b, c, Below(at, cl, 512));
    var d := c[at[cl] := false];
    StillInUse(mem, at, b, c, Below(at, cl, 512), cl);
    ReturnedOne(at, c, cl);
    ReturnedTrans(at, b, c, d, Below(at, cl, 512), {cl});
    ReturnedTrans(at, a, b, d, Below(at, pl, i), Below(at, cl, 512) + {cl});
  }

  // ----- whole address spaces -----

  ghost function Subtree(at: Layout, pl: Place): (s: set<Place>) { Below(at, pl, 512) + {pl} }

  /** Cutting a subtree off a PML4 leaves a sound layout of everything else. */
  lemma Pruned(mem: Memory, at: Layout, r: nat, i: nat)
    requires Shape(mem, at) && Place(r, []) in at && i < 256 && Child(Place(r, []), i) in at
    ensures r in mem && mem[r].TablePage? && |mem[r].entries| == 512
    ensures var gone := Subtree(at, Child(Place(r, []), i)); var mem' := SetEntry(mem, r, i, NONE);
      Shape(mem', at - gone) && SamePages(mem, at, mem', at - gone, gone)
  {
    hide Strictly, Present, Huge, LastIndex, PathOk, Below, Parent;
    var root, cl := Place(r, []), Child(Place(r, []), i);
    var gone := Subtree(at, cl);
    TableAt(mem, at, root, i);
    assert at[root] == r;
    var mem', at' := SetEntry(mem, r, i, NONE), at - gone;
    NoneAbsent();
    forall q | q in at' ensures NodeOk(mem', at', q) && (|q.path| > 0 ==> Parent(q) in at') {
      assert NodeOk(mem, at, q);
      if |q.path| > 0 {
        ParentKept(mem, at, cl, q);
      }
    }
    PrunedEntries(mem, at, r, i, mem', at');
    PrunedPages(mem, at, r, i, mem', at');
  }

  /** A place whose parent is cut off is cut off. */
  lemma ParentKept(mem: Memory, at: Layout, cl: Place, q: Place)
    requires Shape(mem, at) && q in at && |q.path| > 0 && q !in Subtree(at, cl)
    ensures Parent(q) in at && Parent(q) !in Subtree(at, cl)
  {
    hide NodeOk, EntryAgrees;
    Indices(mem, at, q);
    assert Parent(q).path < q.path;
  }

  ghost predicate EntryFits(mem: Memory, at: Layout, q: Place, j: nat)
    requires q in at
  {
    at[q] in mem && mem[at[q]].TablePage? && j < |mem[at[q]].entries| && EntryAgrees(mem, at, q, j)
  }

  lemma PrunedEntries(mem: Memory, at: Layout, r: nat, i: nat, mem': Memory, at': Layout)
    requires Shape(mem, at) && Place(r, []) in at && i < 256 && Child(Place(r, []), i) in at
    requires r in mem && mem[r].TablePage? && |mem[r].entries| == 512
    requires mem' == SetEntry(mem, r, i, NONE) && at' == at - Subtree(at, Child(Place(r, []), i))
    ensures forall q, j: nat :: q in at' && |q.path| < 4 && IndexOk(q, j) ==> EntryFits(mem', at', q, j)
  {
    hide Shape, Strictly, Present, Huge, Below, NodeOk, EntryFits, Subtree, Child;
    forall q, j: nat | q in at' && |q.path| < 4 && IndexOk(q, j)
      ensures EntryFits(mem', at', q, j)
    {
      PrunedEntry(mem, at, r, i, mem', at', q, j);
    }
  }

  lemma PrunedEntry(mem: Memory, at: Layout, r: nat, i: nat, mem': Memory, at': Layout, q: Place, j: nat)
    requires Shape(mem, at) && Place(r, []) in at && i < 256 && Child(Place(r, []), i) in at
    requires r in mem && mem[r].TablePage? && |mem[r].entries| == 512
    requires mem' == SetEntry(mem, r, i, NONE) && at' == at - Subtree(at, Child(Place(r, []), i))
    requires q in at' && |q.path| < 4 && IndexOk(q, j)
    ensures EntryFits(mem', at', q, j)
  {
    hide Shape, Strictly, Present, Huge, PathOk, Below, Child;
    var cl := Child(Place(r, []), i);
    NoneAbsent();
    RootFrame(mem, at, r);
    TableAt(mem, at, q, j);
    ChildParent(q, j);
    ChildParent(Place(r, []), i);
    if at[q] == r {
      OneNode(mem, at, q, Place(r, []));
    }
    if Child(q, j) in at {
      ChildCut(mem, at, cl, q, j);
    }
  }

  lemma ChildCut(mem: Memory, at: Layout, cl: Place, q: Place, j: nat)
    requires Shape(mem, at) && q in at && q !in Subtree(at, cl) && Child(q, j) in at
    ensures Child(q, j) in Subtree(at, cl) <==> Child(q, j) == cl
  {
    hide NodeOk, EntryAgrees;
    ChildParent(q, j);
    Indices(mem, at, q);
    var long := Child(q, j).path;
    assert long[..|q.path|] == q.path;
    assert cl.path < long ==> cl.path == long[..|cl.path|] == q.path[..|cl.path|];
  }

  lemma PrunedPages(mem: Memory, at: Layout, r: nat, i: nat, mem': Memory, at': Layout)
    requires Shape(mem, at) && Shape(mem', at') && Place(r, []) in at && i < 256
    requires r in mem && mem[r].TablePage? && i < |mem[r].entries|
    requires mem' == SetEntry(mem, r, i, NONE) && at' == at - Subtree(at, Child(Place(r, []), i))
    ensures SamePages(mem, at, mem', at', Subtree(at, Child(Place(r, []), i)))
  {
    hide Shape, Strictly, LastIndex, PathOk, Below, Subtree;
    var gone := Subtree(at, Child(Place(r, []), i));
    RootStays(at, r, i);
    forall q | q in at && |q.path| == 4 && q !in gone
      ensures q in at' && at[q] in mem && at[q] in mem' && Pte(mem', at', q) == Pte(mem, at, q) &&
        mem'[at[q]] == mem[at[q]]
    {
      FarFromRoot(mem, at, r, q);
      FarFromRoot(mem', at', r, q);
    }
  }

  lemma RootStays(at: Layout, r: nat, i: nat)
    ensures Place(r, []) !in Subtree(at, Child(Place(r, []), i))
  {
  }

  lemma FarFromRoot(mem: Memory, at: Layout, r: nat, q: Place)
    requires Shape(mem, at) && q in at && |q.path| == 4 && Place(r, []) in at
    ensures Parent(q) in at && at[Parent(q)] in mem && at[q] in mem && at[q] != r && at[Parent(q)] != r
  {
    hide EntryAgrees;
    RootFrame(mem, at, r);
    assert NodeOk(mem, at, q) && NodeOk(mem, at, Parent(q));
  }

  /** Once its frames are returned, the rest is still accounted for. */
  lemma AccountedLess(mem: Memory, at: Layout, inUse: seq<bool>, inUse': seq<bool>, other: set<nat>, gone: set<Place>)
    requires Shape(mem, at) && Accounted(at, inUse, other) && Returned(at, inUse, inUse', gone)
    ensures Accounted(at - gone, inUse', other)
  {
    hide NodeOk, EntryAgrees;
    var at' := at - gone;
    forall f | 0 <= f < |inUse| ensures inUse'[f] <==> f in other || f in at'.Values {
      if f in at'.Values {
        var q :| q in at' && at'[q] == f;
        assert at[q] in at.Values;
        StillInUse(mem, at, inUse, inUse', gone, q);
      }
      if inUse'[f] && f !in other {
        assert inUse[f];
        var q :| q in at && at[q] == f;
        assert q in at' && at'[q] == f;
      }
    }
  }

  /** What an address space holds below its PML4. */
  ghost function UserHalf(at: Layout, r: nat): set<Place> { Below(at, Place(r, []), 256) }

  /** Only the user half of one PML4 differs. */
  ghost predicate OnlyRootChanged(mem: Memory, mem': Memory, r: nat) {
    && mem'.Keys == mem.Keys && (forall f :: f in mem && f != r ==> mem'[f] == mem[f])
    && (r in mem && mem[r].TablePage? && |mem[r].entries| == 512 ==>
        mem'[r].TablePage? && |mem'[r].entries| == 512 && mem'[r].entries[256..] == mem[r].entries[256..])
  }

  /** What it means that the places in `gone` were given up. */
  ghost predicate Emptied(
    mem: Memory, at: Layout, inUse: seq<bool>, mem': Memory, at': Layout, inUse': seq<bool>, r: nat, gone: set<Place>) {
    && Shape(mem, at) && Shape(mem', at') && at' == at - gone
    && Returned(at, inUse, inUse', gone) && SamePages(mem, at, mem', at', gone) && OnlyRootChanged(mem, mem', r)
  }

  lemma EmptiedTrans(m0: Memory, a0: Layout, u0: seq<bool>, m1: Memory, a1: Layout, u1: seq<bool>,
                     m2: Memory, a2: Layout, u2: seq<bool>, r: nat, g: set<Place>, h: set<Place>)
    requires Emptied(m0, a0, u0, m1, a1, u1, r, g) && Emptied(m1, a1, u1, m2, a2, u2, r, h)
    ensures Emptied(m0, a0, u0, m2, a2, u2, r, g + h)
  {
    hide NodeOk, EntryAgrees, Parent, LastIndex, IndexOk, Shape, Returned;
    ReturnedIn(a0, a1, u1, u2, h);
    ReturnedTrans(a0, u0, u1, u2, g, h);
    assert a0 - (g + h) == a2;
  }

  lemma ReturnedIn(a0: Layout, a1: Layout, u: seq<bool>, u': seq<bool>, h: set<Place>)
    requires Returned(a1, u, u', h) && forall q :: q in a1 ==> q in a0 && a0[q] == a1[q]
    ensures Returned(a0, u, u', h)
  {
    forall f | 0 <= f < |u| && u'[f] != u[f] ensures exists q :: q in h && a0[q] == f {
      var q :| q in h && a1[q] == f;
      assert a0[q] == f;
    }
  }

  /** The part cut off in one step is the same before and after earlier steps. */
  lemma SameSubtree(mem: Memory, a0: Layout, top: Place, i: nat)
    requires Shape(mem, a0) && top in a0
    ensures var at := a0 - Below(a0, top, i); var cl := Child(top, i);
      && top in at && (cl in at <==> cl in a0) && Subtree(at, cl) == Subtree(a0, cl)
      && Below(a0, top, i + 1) == Below(a0, top, i) + if cl in a0 then Subtree(at, cl) else {}
  {
    hide Shape, Strictly;
    BelowStep(mem, a0, top, i);
    NotBelowItself(a0, top);
    NotBelow(a0, top, i);
  }

  lemma NotBelow(at: Layout, pl: Place, n: nat)
    ensures pl !in Below(at, pl, n)
  {
  }

  /** Drop one entry of a PML4 and everything below it. */
  method FreeEntry(m: Machine, root: nat, i: nat)
    requires m.Inv() && Place(root, []) in m.at && i < 256
    modifies m, m.frames, m.frames.bitmap
    ensures m.Inv() && m.other == old(m.other)
    ensures Emptied(old(m.mem), old(m.at), old(m.frames.InUse()), m.mem, m.at, m.frames.InUse(), root,
      if Child(Place(root, []), i) in old(m.at) then Subtree(old(m.at), Child(Place(root, []), i)) else {})
  {
    hide Shape, Strictly, Flags, Returned, Present, Below, SamePages, Accounted, Subtree, OnlyRootChanged;
    ghost var u0, m0, cl := m.frames.InUse(), m.mem, Child(Place(root, []), i);
    RootFrame(m.mem, m.at, root);
    TableAt(m.mem, m.at, Place(root, []), i);
    var e := m.mem[root].entries[i];
    if !Present(e) {
      EmptiedNone(m.mem, m.at, u0, root);
      return;
    }
    AllInUse(m.at, u0, m.other, Below(m.at, cl, 512));
    FreeBelow(m, e.frame, 1, cl);
    CutOff(m.mem, m.at, u0, m.frames.InUse(), m.other, root, i);
    FreeNumbered(m.frames, e.frame);
    m.mem := SetEntry(m.mem, root, i, NONE);
    m.at := m.at - Subtree(m.at, cl);
  }

  /** Empty the user half of an address space: exactly its data and table frames
      are given back, and every other address space is as before. */
  method FreeUserSubtree(m: Machine, root: nat)
    requires m.Inv() && Place(root, []) in m.at
    modifies m, m.frames, m.frames.bitmap
    ensures m.Inv() && m.other == old(m.other)
    ensures Emptied(old(m.mem), old(m.at), old(m.frames.InUse()), m.mem, m.at, m.frames.InUse(), root,
      UserHalf(old(m.at), root))
  {
    hide Shape, Strictly, Flags, Present, Below, Accounted, Subtree, Emptied, Child;
    ghost var a0, u0, m0, top := m.at, m.frames.InUse(), m.mem, Place(root, []);
    EmptiedNone(m0, a0, u0, root);
    BelowNothing(a0, top);
    var i := 0;
    while i < 256
      invariant 0 <= i <= 256 && m.Inv() && m.other == old(m.other)
      invariant Emptied(m0, a0, u0, m.mem, m.at, m.frames.InUse(), root, Below(a0, top, i))
    {
      ghost var m1, a1, u1 := m.mem, m.at, m.frames.InUse();
      EmptiedLayout(m0, a0, u0, m1, a1, u1, root, Below(a0, top, i));
      SameSubtree(m0, a0, top, i);
      FreeEntry(m, root, i);
      EmptiedTrans(m0, a0, u0, m1, a1, u1, m.mem, m.at, m.frames.InUse(), root, Below(a0, top, i),
        if Child(top, i) in a1 then Subtree(a1, Child(top, i)) else {});
      i := i + 1;
    }
  }

  lemma EmptiedLayout(
    mem: Memory, at: Layout, inUse: seq<bool>, mem': Memory, at': Layout, inUse': seq<bool>, r: nat, gone: set<Place>)
    requires Emptied(mem, at, inUse, mem', at', inUse', r, gone)
    ensures at' == at - gone
  {
  }

  lemma EmptiedNone(mem: Memory, at: Layout, inUse: seq<bool>, r: nat)
    requires Shape(mem, at)
    ensures Emptied(mem, at, inUse, mem, at, inUse, r, {})
  {
    hide Shape;
    SamePagesSelf(mem, at);
    assert at - {} == at;
  }

  lemma AllInUse(at: Layout, inUse: seq<bool>, other: set<nat>, s: set<Place>)
    requires Accounted(at, inUse, other)
    ensures AllHeld(at, inUse, s)
  {
    forall q | q in at ensures at[q] in at.Values {
    }
  }

  lemma CutOff(mem: Memory, at: Layout, u: seq<bool>, u1: seq<bool>, other: set<nat>, r: nat, i: nat)
    requires Shape(mem, at) && Place(r, []) in at && i < 256 && Child(Place(r, []), i) in at && Accounted(at, u, other)
    requires Returned(at, u, u1, Below(at, Child(Place(r, []), i), 512))
    ensures r in mem && mem[r].TablePage? && |mem[r].entries| == 512 && at[Child(Place(r, []), i)] < |u1|
    ensures var cl := Child(Place(r, []), i); var gone := Subtree(at, cl); var mem' := SetEntry(mem, r, i, NONE);
      var u' := u1[at[cl] := false];
      Emptied(mem, at, u, mem', at - gone, u', r, gone) && Accounted(at - gone, u', other)
  {
    hide Shape, Strictly, Returned, Below, SamePages, Child, Present, Huge;
    var cl := Child(Place(r, []), i);
    Pruned(mem, at, r, i);
    AllInUse(at, u, other, {cl});
    NotBelowItself(at, cl);
    SameLength(at, u, u1, Below(at, cl, 512));
    StillInUse(mem, at, u, u1, Below(at, cl, 512), cl);
    ReturnedOne(at, u1, cl);
    ReturnedTrans(at, u, u1, u1[at[cl] := false], Below(at, cl, 512), {cl});
    AccountedLess(mem, at, u, u1[at[cl] := false], other, Subtree(at, cl));
  }

  /** Frees an address space: its user half and its PML4, once each. The
      kernel's own tables are left alone. */
  method FreePml4(m: Machine, root: nat)
    requires m.Inv() && (Place(root, []) in m.at || root == m.kernelRoot || root == 0)
    modifies m, m.frames, m.frames.bitmap
    ensures m.Inv() && m.other == old(m.other)
    ensures root == m.kernelRoot || root == 0 ==>
      m.at == old(m.at) && m.mem == old(m.mem) && m.frames.InUse() == old(m.frames.InUse())
    ensures root != m.kernelRoot && root != 0 ==>
      Emptied(old(m.mem), old(m.at), old(m.frames.InUse()), m.mem, m.at, m.frames.InUse(), root,
      AddressSpace(old(m.at), root))
  {
    hide Shape, Strictly, Flags, Count, Present, Below, Accounted, Subtree, Emptied, AddressSpace, UserHalf;
    if root == 0 || root == m.kernelRoot {
      return;
    }
    ghost var a0, u0, m0, top := m.at, m.frames.InUse(), m.mem, Place(root, []);
    FreeUserSubtree(m, root);
    RootGone(m0, a0, u0, m.mem, m.at, m.frames.InUse(), m.other, root);
    FreeNumbered(m.frames, root);
    m.at := m.at - {top};
  }

  /** Every place of an address space, its PML4 included. */
  ghost function AddressSpace(at: Layout, r: nat): (s: set<Place>)
    ensures forall q :: q in s <==> q in at && q.root == r
  {
    set q | q in at && q.root == r
  }

  lemma WholeSpace(mem: Memory, at: Layout, r: nat)
    requires Shape(mem, at) && Place(r, []) in at
    ensures AddressSpace(at, r) == UserHalf(at, r) + {Place(r, [])}
  {
    hide EntryAgrees;
    forall q | q in at && q.root == r && q != Place(r, []) ensures Strictly(q, Place(r, []), 256) {
      assert NodeOk(mem, at, q);
      assert q.path != [];
    }
  }

  /** After its user half is gone, the PML4 is a lone place and can go too. */
  lemma RootGone(m0: Memory, a0: Layout, u0: seq<bool>, mem: Memory, at: Layout, u: seq<bool>, other: set<nat>, r: nat)
    requires Emptied(m0, a0, u0, mem, at, u, r, UserHalf(a0, r)) && Place(r, []) in a0 && Accounted(at, u, other)
    ensures Place(r, []) in at && at[Place(r, [])] == r < |u|
    ensures var top := Place(r, []); var u' := u[r := false];
      Emptied(m0, a0, u0, mem, at - {top}, u', r, AddressSpace(a0, r)) && Accounted(at - {top}, u', other) &&
        Shape(mem, at - {top})
  {
    hide Shape, Strictly, Returned, Below, SamePages, Child, Present, Huge, OnlyRootChanged;
    var top := Place(r, []);
    NotBelow(a0, top, 256);
    WholeSpace(m0, a0, r);
    assert top in at;
    RootFrame(mem, at, r);
    AllInUse(at, u, other, {top});
    ReturnedOne(at, u, top);
    LoneRoot(mem, at, r);
    AccountedLess(mem, at, u, u[r := false], other, {top});
    Same(mem, r);
    EmptiedTrans(m0, a0, u0, mem, at, u, mem, at - {top}, u[r := false], r, UserHalf(a0, r), {top});
  }

  lemma Same(mem: Memory, r: nat)
    ensures OnlyRootChanged(mem, mem, r)
  {
  }

  lemma LoneRoot(mem: Memory, at: Layout, r: nat)
    requires Shape(mem, at) && forall q :: q in at && q.root == r ==> q == Place(r, [])
    ensures Shape(mem, at - {Place(r, [])}) && SamePages(mem, at, mem, at - {Place(r, [])}, {Place(r, [])})
  {
    hide Present, Huge, LastIndex, PathOk, NodeOk, EntryAgrees;
    var top, at' := Place(r, []), at - {Place(r, [])};
    forall q | q in at' ensures NodeOk(mem, at', q) {
      LoneNode(mem, at, top, q);
    }
    forall q, i: nat | q in at' && |q.path| < 4 && IndexOk(q, i) ensures EntryFits(mem, at', q, i) {
      LoneKept(mem, at, top, q, i);
    }
  }

  lemma LoneNode(mem: Memory, at: Layout, top: Place, q: Place)
    requires q in at && NodeOk(mem, at, q) && q != top
    ensures NodeOk(mem, at - {top}, q)
  {
  }

  lemma LoneKept(mem: Memory, at: Layout, top: Place, q: Place, i: nat)
    requires q in at && q != top && NodeOk(mem, at, q) && |q.path| < 4 && i < 512 && EntryAgrees(mem, at, q, i)
    requires |top.path| == 0
    ensures EntryFits(mem, at - {top}, q, i)
  {
  }

  /** Empties an address space that stays in use, as exec does. */
  method UnmapUserSpace(m: Machine, root: nat)
    requires m.Inv() && (Place(root, []) in m.at || root == 0)
    modifies m, m.frames, m.frames.bitmap
    ensures m.Inv() && m.other == old(m.other)
    ensures root == 0 ==> m.at == old(m.at) && m.mem == old(m.mem) && m.frames.InUse() == old(m.frames.InUse())
    ensures root != 0 ==>
      Emptied(old(m.mem), old(m.at), old(m.frames.InUse()), m.mem, m.at, m.frames.InUse(), root,
      UserHalf(old(m.at), root))
  {
    hide Shape, Flags, Accounted, Emptied, UserHalf;
    if root != 0 {
      FreeUserSubtree(m, root);
    }
  }
}
