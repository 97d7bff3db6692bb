/**
 Four-level page tables held in allocated frames. The tables of all address
 spaces refine one map from places (an address space and a path of indices) to
 frames; that map is injective and, with the frames held elsewhere, accounts for
 every frame in use.
 */
module Vmm {
  import opened Octets
  import opened Pmm

  /** A table entry by fields: frame number, low twelve flag bits, no-execute. */
  datatype Entry = Entry(frame: nat, flags: bv12, nx: bool)

  const PRESENT: bv12 := 0x001
  const WRITE: bv12 := 0x002
  const USER: bv12 := 0x004
  const HUGE: bv12 := 0x080
  const NONE: Entry := Entry(0, 0, false)

  predicate Present(e: Entry) { e.flags & PRESENT != 0 }

  predicate Huge(e: Entry) { e.flags & HUGE != 0 }

  lemma FlagFacts(f: bv12)
    ensures (f | PRESENT) & PRESENT != 0
    ensures (f | USER) & PRESENT == f & PRESENT && (f | USER) & HUGE == f & HUGE
    ensures 0 & PRESENT == (0 as bv12)
    ensures (PRESENT | WRITE) & PRESENT != 0 && (PRESENT | WRITE) & HUGE == 0
    ensures (PRESENT | WRITE | USER) & PRESENT != 0 && (PRESENT | WRITE | USER) & HUGE == 0
  {
  }

  /** The leaf entry written for a page. */
  function Mapping(frame: nat, flags: bv12, nx: bool): (e: Entry)
    ensures e.frame == frame && e.nx == nx
  {
    Entry(frame, flags | PRESENT, nx)
  }

  lemma MappingPresent(frame: nat, flags: bv12, nx: bool)
    ensures Present(Mapping(frame, flags, nx))
  {
    FlagFacts(flags);
  }

  function WithUser(e: Entry): Entry { Entry(e.frame, e.flags | USER, e.nx) }

  /** What a frame holds: a table of 512 entries or 4096 bytes of data. */
  datatype Page = TablePage(entries: seq<Entry>) | DataPage(bytes: seq<byte>)

  predicate PageOk(p: Page) {
    match p
    case TablePage(es) => |es| == 512
    case DataPage(bs) => |bs| == 4096
  }

  type Memory = map<nat, Page>

  // ----- places -----

  /** A node of a user address space: its root frame and the indices followed.
      Length 0 is the PML4, 1 to 3 the lower tables, 4 a user page. */
  datatype Place = Place(root: nat, path: seq<nat>)

  type Layout = map<Place, nat>

  predicate PathOk(p: seq<nat>) {
    |p| <= 4 && (forall k :: 0 <= k < |p| ==> p[k] < 512) && (|p| > 0 ==> p[0] < 256)
  }

  /** The index leads from a table of this depth into the user half. */
  predicate IndexOk(pl: Place, i: nat) {
    i < 512 && (|pl.path| == 0 ==> i < 256)
  }

  function Child(pl: Place, i: nat): Place { Place(pl.root, pl.path + [i]) }

  function Parent(pl: Place): Place
    requires |pl.path| > 0
  {
    Place(pl.root, pl.path[..|pl.path| - 1])
  }

  function LastIndex(pl: Place): nat
    requires |pl.path| > 0
  {
    pl.path[|pl.path| - 1]
  }

  lemma ChildParent(pl: Place, i: nat)
    ensures Parent(Child(pl, i)) == pl && LastIndex(Child(pl, i)) == i
  {
    assert Child(pl, i).path[..|pl.path|] == pl.path;
  }

  lemma ParentChild(pl: Place)
    requires |pl.path| > 0
    ensures Child(Parent(pl), LastIndex(pl)) == pl
  {
    assert pl.path[..|pl.path| - 1] + [pl.path[|pl.path| - 1]] == pl.path;
  }

  // ----- the invariant -----

  /** Entry i of the table at pl is what the layout says. */
  ghost predicate EntryAgrees(mem: Memory, at: Layout, pl: Place, i: nat)
    requires pl in at && at[pl] in mem && mem[at[pl]].TablePage? && i < |mem[at[pl]].entries|
  {
    var e := mem[at[pl]].entries[i];
    && (Present(e) <==> Child(pl, i) in at)
    && (Present(e) ==> e.frame == at[Child(pl, i)])
    && (Present(e) && 1 <= |pl.path| <= 2 ==> !Huge(e))
  }

  /** The node at pl sits in memory as a page of the right kind. */
  ghost predicate NodeOk(mem: Memory, at: Layout, pl: Place)
    requires pl in at
  {
    && PathOk(pl.path) && at[pl] in mem && PageOk(mem[at[pl]])
    && (|pl.path| < 4 <==> mem[at[pl]].TablePage?)
  }

  ghost predicate Shape(mem: Memory, at: Layout) {
    && (forall pl :: pl in at ==> NodeOk(mem, at, pl))
    && (forall pl, ql :: pl in at && ql in at && at[pl] == at[ql] ==> pl == ql)
    && (forall pl :: pl in at && |pl.path| > 0 ==> Parent(pl) in at)
    && (forall pl :: pl in at && |pl.path| == 0 ==> at[pl] == pl.root)
    && (forall pl, i: nat :: pl in at && |pl.path| < 4 && IndexOk(pl, i) ==> EntryAgrees(mem, at, pl, i))
  }

  /** Every frame in use is a node of exactly one place or is held elsewhere. */
  ghost predicate Accounted(at: Layout, inUse: seq<bool>, other: set<nat>) {
    && (forall pl :: pl in at ==> at[pl] < |inUse| && at[pl] !in other)
    && (forall f :: f in other ==> f < |inUse|)
    && (forall f :: 0 <= f < |inUse| ==> (inUse[f] <==> f in other || f in at.Values))
  }

  // ----- user pages -----

  /** The leaf entry of a mapped page. */
  ghost function Pte(mem: Memory, at: Layout, pl: Place): Entry
    requires Shape(mem, at) && pl in at && |pl.path| == 4
  {
    mem[at[Parent(pl)]].entries[LastIndex(pl)]
  }

  /** Outside `but`, the same pages are mapped, to the same frames, with the
      same flags and the same bytes. */
  ghost predicate SamePages(mem: Memory, at: Layout, mem': Memory, at': Layout, but: set<Place>)
    requires Shape(mem, at) && Shape(mem', at')
  {
    forall pl: Place :: |pl.path| == 4 && pl !in but ==>
      && (pl in at' <==> pl in at)
      && (pl in at ==> at'[pl] == at[pl] && Pte(mem', at', pl) == Pte(mem, at, pl) && mem'[at[pl]] == mem[at[pl]])
  }

  lemma SamePagesTrans(m: Memory, a: Layout, m1: Memory, a1: Layout, m2: Memory, a2: Layout, but: set<Place>)
    requires Shape(m, a) && Shape(m1, a1) && Shape(m2, a2)
    requires SamePages(m, a, m1, a1, but) && SamePages(m1, a1, m2, a2, but)
    ensures SamePages(m, a, m2, a2, but)
  {
  }

  // ----- changing one entry -----

  function SetEntry(mem: Memory, f: nat, i: nat, e: Entry): Memory
    requires f in mem && mem[f].TablePage? && i < |mem[f].entries|
  {
    mem[f := TablePage(mem[f].entries[i := e])]
  }

  /** Changing the flags of a present entry keeps the layout. */
  lemma FlagsChanged(mem: Memory, at: Layout, pl: Place, i: nat, e: Entry)
    requires Shape(mem, at) && pl in at && |pl.path| < 4 && IndexOk(pl, i)
    requires var o := mem[at[pl]].entries[i];
      Present(o) && Present(e) && e.frame == o.frame && (1 <= |pl.path| <= 2 ==> !Huge(e))
    ensures Shape(SetEntry(mem, at[pl], i, e), at)
    ensures SamePages(mem, at, SetEntry(mem, at[pl], i, e), at, if |pl.path| == 3 then {Child(pl, i)} else {})
  {
    hide Present, Huge, Child, Parent, PathOk, LastIndex;
    var mem' := SetEntry(mem, at[pl], i, e);
    forall ql | ql in at ensures NodeOk(mem', at, ql) {
    }
    forall ql, j: nat | ql in at && |ql.path| < 4 && IndexOk(ql, j) ensures EntryAgrees(mem', at, ql, j) {
      assert EntryAgrees(mem, at, ql, j);
    }
    ChildPath(pl, i);
    forall ql | ql in at && |ql.path| == 4 && ql !in (if |pl.path| == 3 then {Child(pl, i)} else {})
      ensures Pte(mem', at, ql) == Pte(mem, at, ql) && mem'[at[ql]] == mem[at[ql]]
    {
      OtherLeaf(mem, at, pl, i, ql);
    }
  }

  /** The entry of another page lies in another table or at another index. */
  lemma OtherLeaf(mem: Memory, at: Layout, pl: Place, i: nat, ql: Place)
    requires Shape(mem, at) && pl in at && ql in at && |pl.path| < 4 && |ql.path| == 4
    requires ql != Child(pl, i)
    ensures Parent(ql) in at && at[Parent(ql)] in mem && mem[at[Parent(ql)]].TablePage?
    ensures LastIndex(ql) < 512 && (at[Parent(ql)] != at[pl] || LastIndex(ql) != i)
    ensures at[ql] != at[pl]
  {
    ParentChild(ql);
    assert NodeOk(mem, at, ql) && NodeOk(mem, at, Parent(ql)) && NodeOk(mem, at, pl);
  }

  /** Hanging a new page with no children below an empty entry adds one place. */
  lemma ChildAdded(mem: Memory, at: Layout, pl: Place, i: nat, e: Entry, page: Page)
    requires Shape(mem, at) && pl in at && |pl.path| < 4 && IndexOk(pl, i)
    requires !Present(mem[at[pl]].entries[i]) && Present(e) && e.frame !in at.Values
    requires 1 <= |pl.path| <= 2 ==> !Huge(e)
    requires PageOk(page) && (|pl.path| < 3 <==> page.TablePage?)
    requires page.TablePage? ==> forall k :: 0 <= k < 512 ==> !Present(page.entries[k])
    ensures var mem' := SetEntry(mem, at[pl], i, e)[e.frame := page];
      var at' := at[Child(pl, i) := e.frame];
      && Shape(mem', at') && SamePages(mem, at, mem', at', {Child(pl, i)})
      && Child(pl, i) !in at
      && (|pl.path| == 3 ==> |Child(pl, i).path| == 4 && Pte(mem', at', Child(pl, i)) == e)
  {
    hide Present, Huge, Child, Parent, PathOk, LastIndex;
    var cl := Child(pl, i);
    var mem' := SetEntry(mem, at[pl], i, e)[e.frame := page];
    var at' := at[cl := e.frame];
    ChildParent(pl, i);
    ChildPath(pl, i);
    assert EntryAgrees(mem, at, pl, i);
    forall ql | ql in at ensures at[ql] in at.Values && at[ql] != e.frame {
    }
    NewNodes(mem, at, pl, i, e, page, mem', at');
    NewEntries(mem, at, pl, i, e, page, mem', at');
    forall ql | ql in at && |ql.path| == 4
      ensures Pte(mem', at', ql) == Pte(mem, at, ql) && mem'[at[ql]] == mem[at[ql]]
    {
      OtherLeaf(mem, at, pl, i, ql);
    }
  }

  lemma ChildPath(pl: Place, i: nat)
    requires PathOk(pl.path) && |pl.path| < 4 && IndexOk(pl, i)
    ensures PathOk(Child(pl, i).path) && |Child(pl, i).path| == |pl.path| + 1 && Child(pl, i).root == pl.root
  {
  }

  /** The data of adding a child, shared by the two lemmas below. */
  ghost predicate Adding(mem: Memory, at: Layout, pl: Place, i: nat, e: Entry, page: Page, mem': Memory, at': Layout) {
    && Shape(mem, at) && pl in at && |pl.path| < 4 && IndexOk(pl, i) && Child(pl, i) !in at
    && Present(e) && (forall ql :: ql in at ==> at[ql] != e.frame)
    && (1 <= |pl.path| <= 2 ==> !Huge(e))
    && PageOk(page) && (|pl.path| < 3 <==> page.TablePage?)
    && (page.TablePage? ==> forall k :: 0 <= k < 512 ==> !Present(page.entries[k]))
    && mem' == SetEntry(mem, at[pl], i, e)[e.frame := page] && at' == at[Child(pl, i) := e.frame]
  }

  lemma NewNodes(mem: Memory, at: Layout, pl: Place, i: nat, e: Entry, page: Page, mem': Memory, at': Layout)
    requires Adding(mem, at, pl, i, e, page, mem', at')
    ensures forall ql :: ql in at' ==> NodeOk(mem', at', ql)
    ensures forall ql, kl :: ql in at' && kl in at' && at'[ql] == at'[kl] ==> ql == kl
    ensures forall ql :: ql in at' && |ql.path| > 0 ==> Parent(ql) in at'
    ensures forall ql :: ql in at' && |ql.path| == 0 ==> at'[ql] == ql.root
  {
    hide Present, Huge, Child, Parent, PathOk, LastIndex, NodeOk;
    ChildParent(pl, i);
    ChildLength(pl, i);
    forall ql | ql in at' ensures NodeOk(mem', at', ql) {
      NewNode(mem, at, pl, i, e, page, mem', at', ql);
    }
  }

  lemma ChildLength(pl: Place, i: nat)
    ensures |Child(pl, i).path| == |pl.path| + 1
  {
  }

  lemma NewNode(mem: Memory, at: Layout, pl: Place, i: nat, e: Entry, page: Page, mem': Memory, at': Layout, ql: Place)
    requires Adding(mem, at, pl, i, e, page, mem', at') && ql in at'
    ensures NodeOk(mem', at', ql)
  {
    hide Present, Huge, Child, Parent, PathOk, LastIndex;
    ChildPath(pl, i);
    if ql in at {
      assert NodeOk(mem, at, ql);
    }
  }

  lemma NewEntries(mem: Memory, at: Layout, pl: Place, i: nat, e: Entry, page: Page, mem': Memory, at': Layout)
    requires Adding(mem, at, pl, i, e, page, mem', at')
    requires forall ql :: ql in at' ==> NodeOk(mem', at', ql)
    ensures forall ql, j: nat :: ql in at' && |ql.path| < 4 && IndexOk(ql, j) ==> EntryAgrees(mem', at', ql, j)
  {
    hide Present, Huge, Child, Parent, PathOk, LastIndex;
    var cl := Child(pl, i);
    ChildParent(pl, i);
    ChildPath(pl, i);
    forall ql, j: nat | ql in at' && |ql.path| < 4 && IndexOk(ql, j) ensures EntryAgrees(mem', at', ql, j) {
      ChildParent(ql, j);
      if ql == cl {
        NoGrandchild(at, cl, j);
      } else {
        assert EntryAgrees(mem, at, ql, j);
      }
    }
  }

  lemma NoGrandchild(at: Layout, cl: Place, j: nat)
    requires cl !in at && forall pl :: pl in at && |pl.path| > 0 ==> Parent(pl) in at
    ensures Child(cl, j) !in at && Child(cl, j) != cl
  {
    ChildParent(cl, j);
    assert |Child(cl, j).path| == |cl.path| + 1;
  }

  // ----- the accounts -----

  lemma FrameTaken(at: Layout, inUse: seq<bool>, other: set<nat>, f: nat)
    requires Accounted(at, inUse, other) && f < |inUse| && !inUse[f]
    ensures Accounted(at, inUse[f := true], other + {f}) && f !in other && f !in at.Values
  {
    forall pl | pl in at ensures at[pl] != f {
      assert at[pl] in at.Values;
    }
  }

  lemma FramePlaced(at: Layout, inUse: seq<bool>, other: set<nat>, pl: Place, f: nat)
    requires Accounted(at, inUse, other) && f in other && pl !in at
    ensures Accounted(at[pl := f], inUse, other - {f})
  {
    var at' := at[pl := f];
    assert at'[pl] == f;
    forall g | g in at.Values ensures g in at'.Values {
      var ql :| ql in at && at[ql] == g;
      assert at'[ql] == g;
    }
  }

  function ZeroTable(): (p: Page)
    ensures PageOk(p) && p.TablePage? && forall k :: 0 <= k < 512 ==> p.entries[k] == NONE
  {
    TablePage(seq(512, _ => NONE))
  }

  lemma NoneAbsent()
    ensures !Present(NONE)
  {
  }

  const DIRECT_MAP_FRAMES := 0x4000    // 64 MiB of 4 KiB frames

  /** Every frame that could hold a table is taken. */
  ghost predicate NoLow(inUse: seq<bool>) { forall f :: 0 <= f < |inUse| && f < DIRECT_MAP_FRAMES ==> inUse[f] }

  class Machine {
    const frames: FrameAllocator
    const kernelRoot: nat
    var mem: Memory
    ghost var at: Layout
    ghost var other: set<nat>

    ghost predicate Inv()
      reads this, frames, frames.bitmap
    {
      && frames.Valid() && 0 < frames.total
      && 0 in other && kernelRoot in other && kernelRoot in mem && mem[kernelRoot].TablePage? && PageOk(mem[kernelRoot])
      && Shape(mem, at) && Accounted(at, frames.InUse(), other)
    }

    /** The machine after paging is set up: every frame taken so far is the
        kernel's, and no user address space exists. */
    constructor (frames: FrameAllocator, kernelRoot: nat, mem: Memory)
      requires frames.Valid() && kernelRoot < frames.total
      requires frames.InUse()[0] && frames.InUse()[kernelRoot]
      requires kernelRoot in mem && mem[kernelRoot].TablePage? && PageOk(mem[kernelRoot])
      ensures Inv() && at == map[] && this.frames == frames && this.mem == mem && this.kernelRoot == kernelRoot
    {
      this.frames := frames;
      this.kernelRoot := kernelRoot;
      this.mem := mem;
      at := map[];
      other := set f | 0 <= f < frames.total && frames.InUse()[f];
    }

    /** A frame from the allocator, or 0. */
    method AllocFrame() returns (f: nat)
      requires Inv()
      modifies this`other, frames, frames.bitmap
      ensures Inv()
      ensures f == 0 ==> other == old(other) && frames.InUse() == old(frames.InUse())
      ensures f == 0 ==> Full(frames.InUse())
      ensures f != 0 ==> other == old(other) + {f} && f !in old(other) && f !in at.Values
      ensures f != 0 ==>
        && f < frames.total && !old(frames.InUse())[f] && frames.InUse() == old(frames.InUse())[f := true]
        && forall g :: 0 <= g < f ==> old(frames.InUse())[g]
    {
      hide Shape, Flags;
      ghost var before := frames.InUse();
      var addr := frames.Alloc();
      f := addr / 4096;
      if f != 0 {
        FrameTaken(at, before, other, f);
        other := other + {f};
      }
    }

    /** A zeroed table frame. Running out, or getting a frame above the direct
        map, is a kernel panic: ok is false and the machine has halted. */
    method AllocTable() returns (ok: bool, f: nat)
      requires Inv()
      modifies this`other, this`mem, frames, frames.bitmap
      ensures Inv()
      ensures ok ==>
        && f != 0 && other == old(other) + {f} && f !in old(other) && f !in at.Values
        && mem == old(mem)[f := ZeroTable()]
      ensures !ok ==> mem == old(mem) && old(other) <= other
      ensures ok <==> !NoLow(old(frames.InUse()))
      ensures !ok ==> NoLow(frames.InUse())
    {
      hide Accounted, Flags;
      f := AllocFrame();
      if f == 0 || f >= DIRECT_MAP_FRAMES {
        return false, f;
      }
      UnownedWrite(mem, at, f, ZeroTable());
      mem := mem[f := ZeroTable()];
      ok := true;
    }

    /** One level of the walk that creates missing tables. */
    method StepCreate(tbl: nat, idx: nat, user: bool, ghost pl: Place) returns (ok: bool, next: nat)
      requires Inv() && pl in at && at[pl] == tbl && |pl.path| < 3 && IndexOk(pl, idx)
      modifies this, frames, frames.bitmap
      ensures Inv() && OtherKept(old(mem), mem, old(other)) && old(other) <= other
      ensures SamePages(old(mem), old(at), mem, at, {})
      ensures ok ==> at == old(at)[Child(pl, idx) := next] && other == old(other)
      ensures Child(pl, idx) in old(at) ==> ok && next == old(at)[Child(pl, idx)]
      ensures !ok ==> at == old(at) && NoLow(frames.InUse())
    {
      hide Accounted, Flags, Present, Huge, SamePages, Child, Shape, NoLow;
      TableAt(mem, at, pl, idx);
      var flags: bv12 := if user then PRESENT | WRITE | USER else PRESENT | WRITE;
      var e := mem[tbl].entries[idx];
      SamePagesSelf(mem, at);
      NotOther(at, frames.InUse(), other, pl);
      if !Present(e) {
        ok, next := AttachTable(tbl, idx, flags, pl);
      } else {
        next := e.frame;
        ok := true;
        assert at == at[Child(pl, idx) := next];
        if user {
          SetUser(tbl, idx, pl);
        }
      }
    }

    /** Make sure the tables for a page exist and return its leaf table. */
    method WalkCreate(root: nat, p: seq<nat>, user: bool) returns (ok: bool, pt: nat)
      requires Inv() && Place(root, []) in at && |p| == 4 && PathOk(p)
      modifies this, frames, frames.bitmap
      ensures Inv() && OtherKept(old(mem), mem, old(other)) && old(other) <= other
      ensures SamePages(old(mem), old(at), mem, at, {}) && GrewTables(old(at), at, root, p)
      ensures ok ==> Place(root, p[..3]) in at && at[Place(root, p[..3])] == pt && other == old(other)
      ensures !ok ==> NoLow(frames.InUse()) && Place(root, p[..3]) !in old(at)
    {
      hide Accounted, Flags, SamePages, Child, Shape, PathOk, IndexOk, GrewTables, NoLow;
      ghost var m0, a0 := mem, at;
      PathSteps(root, p);
      TablesAbove(mem, at, root, p);
      RootFrame(mem, at, root);
      SamePagesSelf(mem, at);
      var pdpt, pd;
      ok, pdpt := StepCreate(root, p[0], user, Place(root, []));
      GrewStep(a0, at, Place(root, []), p[0], pdpt, ok, p);
      if !ok {
        return false, 0;
      }
      ghost var m1, a1 := mem, at;
      StillThere(a0, a1, root, p);
      ok, pd := StepCreate(pdpt, p[1], user, Place(root, p[..1]));
      SamePagesTrans(m0, a0, m1, a1, mem, at, {});
      GrewStep(a1, at, Place(root, p[..1]), p[1], pd, ok, p);
      GrewTrans(a0, a1, at, root, p);
      if !ok {
        return false, 0;
      }
      ghost var m2, a2 := mem, at;
      StillThere(a0, a2, root, p);
      ok, pt := StepCreate(pd, p[2], user, Place(root, p[..2]));
      SamePagesTrans(m0, a0, m2, a2, mem, at, {});
      GrewStep(a2, at, Place(root, p[..2]), p[2], pt, ok, p);
      GrewTrans(a0, a2, at, root, p);
    }

    /** Map one user page to a frame that no place holds yet. The page reads as
        that frame afterwards and every other page of every address space is
        as before, whatever tables had to be created on the way. The frame of a page
        that was mapped already stays in use, and no place holds it any more. */
    method MapIn(root: nat, p: seq<nat>, frame: nat, flags: bv12, nx: bool) returns (ok: bool)
      requires Inv() && Place(root, []) in at && |p| == 4 && PathOk(p)
      requires frame in other && frame != 0 && frame != kernelRoot
      requires frame in mem && mem[frame].DataPage? && PageOk(mem[frame])
      modifies this, frames, frames.bitmap
      ensures Inv() && OtherKept(old(mem), mem, old(other))
      ensures SamePages(old(mem), old(at), mem, at, {Place(root, p)})
      ensures GrewTables(old(at) - {Place(root, p)}, at - {Place(root, p)}, root, p)
      ensures ok ==>
        && Place(root, p) in at && at[Place(root, p)] == frame
        && other == old(other) - {frame} + Held(old(at), Place(root, p))
        && Pte(mem, at, Place(root, p)) == Mapping(frame, flags, nx)
      ensures !ok ==>
        && Place(root, p) !in old(at) && Place(root, p) !in at && old(other) <= other && NoLow(frames.InUse())
    {
      hide Accounted, Flags, SamePages, Child, Shape, PathOk, IndexOk, Present, Mapping, NoLow, GrewTables;
      ghost var m0, a0, pl := mem, at, Place(root, p);
      var user := flags & USER != 0;
      var pt;
      ok, pt := WalkCreate(root, p, user);
      SamePagesBut(m0, a0, mem, at, {pl});
      SamePlace(m0, a0, mem, at, pl);
      GrewBeside(a0, at, pl);
      if !ok {
        PageNeedsTable(m0, a0, pl);
        return;
      }
      ghost var m1, a1 := mem, at;
      PathSteps(root, p);
      TableAt(mem, at, Place(root, p[..3]), p[3]);
      MappingPresent(frame, flags, nx);
      PutPage(mem, at, Place(root, p[..3]), p[3], Mapping(frame, flags, nx), frames.InUse(), other);
      mem := SetEntry(mem, pt, p[3], Mapping(frame, flags, nx));
      at := at[pl := frame];
      other := other - {frame} + Held(a1, pl);
      assert at - {pl} == a1 - {pl};
      SamePagesTrans(m0, a0, m1, a1, mem, at, {pl});
    }

    /** Read-only walk: the leaf table of a page, if all tables exist. */
    method WalkLookup(root: nat, p: seq<nat>) returns (hit: bool, pt: nat)
      requires Inv() && Place(root, []) in at && |p| == 4 && PathOk(p)
      ensures hit <==> Place(root, p[..3]) in at
      ensures hit ==> at[Place(root, p[..3])] == pt
    {
      hide Accounted, Flags, SamePages, Child, Shape, PathOk, IndexOk, Present;
      PathSteps(root, p);
      RootFrame(mem, at, root);
      TableAt(mem, at, Place(root, []), p[0]);
      var e := mem[root].entries[p[0]];
      if !Present(e) {
        assert p[..3][..1] == p[..1];
        NotThere(mem, at, Place(root, p[..3]), 1);
        return false, 0;
      }
      TableAt(mem, at, Place(root, p[..1]), p[1]);
      e := mem[e.frame].entries[p[1]];
      if !Present(e) {
        assert p[..3][..2] == p[..2];
        NotThere(mem, at, Place(root, p[..3]), 2);
        return false, 0;
      }
      TableAt(mem, at, Place(root, p[..2]), p[2]);
      e := mem[e.frame].entries[p[2]];
      if !Present(e) {
        return false, 0;
      }
      return true, e.frame;
    }

    /** The frame a page maps to, or 0 when it is not mapped. */
    method GetPhysical(root: nat, p: seq<nat>) returns (frame: nat)
      requires Inv() && Place(root, []) in at && |p| == 4 && PathOk(p)
      ensures frame == if Place(root, p) in at then at[Place(root, p)] else 0
      ensures frame != 0 <==> Place(root, p) in at
    {
      hide Flags, SamePages, Child, Shape, PathOk, IndexOk, Present;
      PathSteps(root, p);
      var hit, pt := WalkLookup(root, p);
      if !hit {
        NotThere(mem, at, Place(root, p), 3);
        return 0;
      }
      TableAt(mem, at, Place(root, p[..3]), p[3]);
      var e := mem[pt].entries[p[3]];
      return if Present(e) then e.frame else 0;
    }

    /** Changes the flags of a mapped page and nothing else. */
    method SetFlags(root: nat, p: seq<nat>, flags: bv12, nx: bool) returns (r: int)
      requires Inv() && Place(root, []) in at && |p| == 4 && PathOk(p)
      modifies this`mem
      ensures Inv() && OtherKept(old(mem), mem, other)
      ensures r == if Place(root, p) in at then 0 else -1
      ensures r == -1 ==> mem == old(mem)
      ensures r == 0 ==>
        && SamePages(old(mem), at, mem, at, {Place(root, p)})
        && Pte(mem, at, Place(root, p)) == Mapping(at[Place(root, p)], flags, nx)
        && at[Place(root, p)] in old(mem) && mem[at[Place(root, p)]] == old(mem)[at[Place(root, p)]]
    {
      hide Accounted, Flags, SamePages, Child, Shape, PathOk, IndexOk, Present, Mapping;
      PathSteps(root, p);
      var hit, pt := WalkLookup(root, p);
      if !hit {
        NotThere(mem, at, Place(root, p), 3);
        return -1;
      }
      TableAt(mem, at, Place(root, p[..3]), p[3]);
      var e := mem[pt].entries[p[3]];
      if !Present(e) {
        return -1;
      }
      NotOther(at, frames.InUse(), other, Place(root, p[..3]));
      MappingPresent(e.frame, flags, nx);
      ReFlag(mem, at, Place(root, p[..3]), p[3], Mapping(e.frame, flags, nx));
      mem := SetEntry(mem, pt, p[3], Mapping(e.frame, flags, nx));
      r := 0;
    }

    /** A fresh address space: an empty user half, the kernel's upper half; 0 when
        no frame is left. A frame above the direct map is a kernel panic. */
    method NewPml4() returns (ok: bool, root: nat)
      requires Inv()
      modifies this, frames, frames.bitmap
      ensures Inv() && OtherKept(old(mem), mem, old(other)) && SamePages(old(mem), old(at), mem, at, {})
      ensures root == 0 ==> at == old(at) && old(other) <= other && mem == old(mem)
      ensures ok && root == 0 ==> other == old(other) && frames.InUse() == old(frames.InUse())
      ensures ok && root == 0 ==> Full(frames.InUse())
      ensures !ok ==> root == 0 && NoLow(frames.InUse())
      ensures root != 0 ==>
        && Place(root, []) !in old(at) && root !in old(at).Values && root !in old(other)
        && at == old(at)[Place(root, []) := root] && other == old(other)
        && KernelHalf(mem, root, kernelRoot)
    {
      hide Accounted, Flags, SamePages, Shape, PathOk, Present;
      ghost var m0, a0, o0 := mem, at, other;
      SamePagesSelf(mem, at);
      var f := AllocFrame();
      if f == 0 {
        return true, 0;
      }
      if f >= DIRECT_MAP_FRAMES {
        return false, 0;
      }
      var page := ZeroTable().entries[..256] + mem[kernelRoot].entries[256..];
      NoneAbsent();
      NewRoot(mem, at, f, TablePage(page));
      FramePlaced(at, frames.InUse(), other, Place(f, []), f);
      mem := mem[f := TablePage(page)];
      at := at[Place(f, []) := f];
      other := other - {f};
      assert other == o0;
      return true, f;
    }

    method SetUser(tbl: nat, idx: nat, ghost pl: Place)
      requires Inv() && pl in at && at[pl] == tbl && |pl.path| < 3 && IndexOk(pl, idx)
      requires NodeOk(mem, at, pl) && Present(mem[tbl].entries[idx])
      modifies this`mem
      ensures Inv() && OtherKept(old(mem), mem, other) && SamePages(old(mem), at, mem, at, {})
    {
      hide Accounted, Flags, Present, Huge, SamePages, Child, Shape, WithUser;
      MarkUser(mem, at, pl, idx);
      NotOther(at, frames.InUse(), other, pl);
      var e := mem[tbl].entries[idx];
      mem := SetEntry(mem, tbl, idx, WithUser(e));
    }

    /** Allocate a table and hang it below an empty entry. */
    method AttachTable(tbl: nat, idx: nat, flags: bv12, ghost pl: Place) returns (ok: bool, next: nat)
      requires Inv() && pl in at && at[pl] == tbl && |pl.path| < 3 && IndexOk(pl, idx)
      requires NodeOk(mem, at, pl) && !Present(mem[tbl].entries[idx])
      requires flags == PRESENT | WRITE || flags == PRESENT | WRITE | USER
      modifies this, frames, frames.bitmap
      ensures Inv() && OtherKept(old(mem), mem, old(other)) && old(other) <= other
      ensures SamePages(old(mem), old(at), mem, at, {})
      ensures ok ==> at == old(at)[Child(pl, idx) := next] && other == old(other)
      ensures !ok ==> at == old(at) && NoLow(frames.InUse())
    {
      hide Accounted, Flags, Present, Huge, SamePages, Child, Shape, NoLow;
      ghost var m0, o0 := mem, other;
      SamePagesSelf(mem, at);
      NotOther(at, frames.InUse(), other, pl);
      ok, next := AllocTable();
      if !ok {
        return;
      }
      var e := Entry(next, flags, false);
      AddTable(m0, at, pl, idx, e);
      NotOther(at, frames.InUse(), other, pl);
      FramePlaced(at, frames.InUse(), other, Child(pl, idx), next);
      mem := SetEntry(mem, tbl, idx, e);
      assert mem == SetEntry(m0, tbl, idx, e)[next := ZeroTable()];
      at := at[Child(pl, idx) := next];
      other := other - {next};
      assert other == o0;
    }
  }

  /** Both are tables and agree on the kernel's half. */
  ghost predicate KernelHalf(mem: Memory, root: nat, kernelRoot: nat) {
    && root in mem && kernelRoot in mem && mem[root].TablePage? && mem[kernelRoot].TablePage?
    && PageOk(mem[root]) && PageOk(mem[kernelRoot])
    && mem[root].entries[256..] == mem[kernelRoot].entries[256..]
  }

  lemma GrewStep(at: Layout, at': Layout, pl: Place, i: nat, next: nat, ok: bool, p: seq<nat>)
    requires |pl.path| < 3 && |p| == 4 && Child(pl, i).path == p[..|pl.path| + 1]
    requires if ok then at' == at[Child(pl, i) := next] && (Child(pl, i) in at ==>
      next == at[Child(pl, i)]) else at' == at
    ensures GrewTables(at, at', pl.root, p)
  {
  }

  lemma GrewTrans(a: Layout, a': Layout, a'': Layout, r: nat, p: seq<nat>)
    requires GrewTables(a, a', r, p) && GrewTables(a', a'', r, p)
    ensures GrewTables(a, a'', r, p)
  {
  }

  lemma RootFrame(mem: Memory, at: Layout, r: nat)
    requires Shape(mem, at) && Place(r, []) in at
    ensures at[Place(r, [])] == r
  {
  }

  /** New places, if any, are tables on the way to a page of address space r. */
  ghost predicate GrewTables(at: Layout, at': Layout, r: nat, p: seq<nat>) {
    && (forall pl :: pl in at ==> pl in at' && at'[pl] == at[pl])
    && (forall pl :: pl in at' && pl !in at ==> pl.root == r && 1 <= |pl.path| <= 3 && pl.path <= p)
  }

  /** The nodes above a page are there. */
  lemma {:induction false} PrefixThere(mem: Memory, at: Layout, pl: Place, k: nat)
    requires Shape(mem, at) && pl in at && k <= |pl.path|
    ensures Place(pl.root, pl.path[..k]) in at
    decreases |pl.path|
  {
    hide PathOk;
    if k == |pl.path| {
      assert pl.path[..k] == pl.path;
    } else {
      PrefixThere(mem, at, Parent(pl), k);
      assert Parent(pl).path[..k] == pl.path[..k];
    }
  }

  lemma PathSteps(r: nat, p: seq<nat>)
    requires |p| == 4 && PathOk(p)
    ensures Child(Place(r, []), p[0]) == Place(r, p[..1]) && IndexOk(Place(r, []), p[0])
    ensures Child(Place(r, p[..1]), p[1]) == Place(r, p[..2]) && IndexOk(Place(r, p[..1]), p[1])
    ensures Child(Place(r, p[..2]), p[2]) == Place(r, p[..3]) && IndexOk(Place(r, p[..2]), p[2])
    ensures Child(Place(r, p[..3]), p[3]) == Place(r, p) && IndexOk(Place(r, p[..3]), p[3])
  {
    assert [] + [p[0]] == p[..1] && p[..1] + [p[1]] == p[..2] && p[..2] + [p[2]] == p[..3] && p[..3] + [p[3]] == p;
  }

  lemma TableAt(mem: Memory, at: Layout, pl: Place, i: nat)
    requires Shape(mem, at) && pl in at && |pl.path| < 4 && IndexOk(pl, i)
    ensures NodeOk(mem, at, pl) && EntryAgrees(mem, at, pl, i)
  {
  }

  /** Frames held outside the address spaces keep their contents. */
  ghost predicate OtherKept(mem: Memory, mem': Memory, other: set<nat>) {
    forall f :: f in other && f in mem ==> f in mem' && mem'[f] == mem[f]
  }

  lemma NotOther(at: Layout, inUse: seq<bool>, other: set<nat>, pl: Place)
    requires Accounted(at, inUse, other) && pl in at
    ensures at[pl] !in other
  {
  }

  lemma AddTable(mem: Memory, at: Layout, pl: Place, i: nat, e: Entry)
    requires Shape(mem, at) && pl in at && |pl.path| < 3 && IndexOk(pl, i)
    requires !Present(mem[at[pl]].entries[i]) && e.frame !in at.Values
    requires e.flags == PRESENT | WRITE || e.flags == PRESENT | WRITE | USER
    ensures var mem' := SetEntry(mem, at[pl], i, e)[e.frame := ZeroTable()];
      var at' := at[Child(pl, i) := e.frame];
      Shape(mem', at') && SamePages(mem, at, mem', at', {}) && Child(pl, i) !in at
  {
    FlagFacts(0);
    NoneAbsent();
    assert Present(e) && !Huge(e);
    hide Shape, SamePages, Present, Huge;
    ChildAdded(mem, at, pl, i, e, ZeroTable());
    NotLeaf(mem, at, SetEntry(mem, at[pl], i, e)[e.frame := ZeroTable()], at[Child(pl, i) := e.frame], Child(pl, i));
  }

  lemma NotLeaf(mem: Memory, at: Layout, mem': Memory, at': Layout, cl: Place)
    requires Shape(mem, at) && Shape(mem', at') && SamePages(mem, at, mem', at', {cl}) && |cl.path| < 4
    ensures SamePages(mem, at, mem', at', {})
  {
  }

  lemma MarkUser(mem: Memory, at: Layout, pl: Place, i: nat)
    requires Shape(mem, at) && pl in at && |pl.path| < 3 && IndexOk(pl, i) && Present(mem[at[pl]].entries[i])
    ensures var e := WithUser(mem[at[pl]].entries[i]);
      Shape(SetEntry(mem, at[pl], i, e), at) && SamePages(mem, at, SetEntry(mem, at[pl], i, e), at, {})
  {
    var o := mem[at[pl]].entries[i];
    FlagFacts(o.flags);
    assert EntryAgrees(mem, at, pl, i);
    FlagsChanged(mem, at, pl, i, WithUser(o));
  }

  /** Writing a frame that no place holds leaves the tables alone. */
  lemma UnownedWrite(mem: Memory, at: Layout, f: nat, page: Page)
    requires Shape(mem, at) && f !in at.Values
    ensures Shape(mem[f := page], at) && SamePages(mem, at, mem[f := page], at, {})
  {
    hide Present, Huge, Child, Parent, PathOk, LastIndex;
    var mem' := mem[f := page];
    forall pl | pl in at ensures at[pl] != f && NodeOk(mem', at, pl) {
      assert at[pl] in at.Values;
      assert NodeOk(mem, at, pl);
    }
    forall pl, i: nat | pl in at && |pl.path| < 4 && IndexOk(pl, i) ensures EntryAgrees(mem', at, pl, i) {
      assert EntryAgrees(mem, at, pl, i);
    }
  }

  lemma SamePagesBut(mem: Memory, at: Layout, mem': Memory, at': Layout, but: set<Place>)
    requires Shape(mem, at) && Shape(mem', at') && SamePages(mem, at, mem', at', {})
    ensures SamePages(mem, at, mem', at', but)
  {
  }

  lemma NotThere(mem: Memory, at: Layout, pl: Place, k: nat)
    requires Shape(mem, at) && k <= |pl.path| && Place(pl.root, pl.path[..k]) !in at
    ensures pl !in at
  {
    if pl in at {
      PrefixThere(mem, at, pl, k);
    }
  }

  lemma AddPage(mem: Memory, at: Layout, pl: Place, i: nat, e: Entry, inUse: seq<bool>, other: set<nat>)
    requires Shape(mem, at) && pl in at && |pl.path| == 3 && IndexOk(pl, i) && Child(pl, i) !in at
    requires Accounted(at, inUse, other) && e.frame in other && Present(e)
    requires e.frame in mem && mem[e.frame].DataPage? && PageOk(mem[e.frame])
    ensures at[pl] in mem && mem[at[pl]].TablePage? && i < |mem[at[pl]].entries|
    ensures var mem' := SetEntry(mem, at[pl], i, e); var at' := at[Child(pl, i) := e.frame];
      && Shape(mem', at') && SamePages(mem, at, mem', at', {Child(pl, i)}) && OtherKept(mem, mem', other)
      && |Child(pl, i).path| == 4 && Pte(mem', at', Child(pl, i)) == e
  {
    hide Shape, SamePages, Present, Huge, Child;
    TableAt(mem, at, pl, i);
    NotPlaced(at, inUse, other, e.frame);
    ChildAdded(mem, at, pl, i, e, mem[e.frame]);
    assert SetEntry(mem, at[pl], i, e)[e.frame := mem[e.frame]] == SetEntry(mem, at[pl], i, e);
  }

  /** The frame of a place, if it is there. */
  ghost function Held(at: Layout, pl: Place): (s: set<nat>) { if pl in at then {at[pl]} else {} }

  /** A leaf entry put over whatever was there. */
  lemma PutPage(mem: Memory, at: Layout, pl: Place, i: nat, e: Entry, inUse: seq<bool>, other: set<nat>)
    requires Shape(mem, at) && pl in at && |pl.path| == 3 && IndexOk(pl, i)
    requires Accounted(at, inUse, other) && e.frame in other && Present(e)
    requires e.frame in mem && mem[e.frame].DataPage? && PageOk(mem[e.frame])
    ensures at[pl] in mem && mem[at[pl]].TablePage? && i < |mem[at[pl]].entries|
    ensures var cl := Child(pl, i); var mem' := SetEntry(mem, at[pl], i, e); var at' := at[cl := e.frame];
      && Shape(mem', at') && SamePages(mem, at, mem', at', {cl}) && OtherKept(mem, mem', other)
      && |cl.path| == 4 && Pte(mem', at', cl) == e
      && Accounted(at', inUse, other - {e.frame} + Held(at, cl))
  {
    hide Shape, SamePages, Present, Huge, Child, Accounted;
    if Child(pl, i) in at {
      PageReplaced(mem, at, pl, i, e, inUse, other);
      FrameReplaced(mem, at, inUse, other, Child(pl, i), e.frame);
    } else {
      AddPage(mem, at, pl, i, e, inUse, other);
      FramePlaced(at, inUse, other, Child(pl, i), e.frame);
      assert other - {e.frame} + {} == other - {e.frame};
    }
  }

  /** Putting another frame below a leaf entry keeps the tables and all other pages. */
  lemma PageReplaced(mem: Memory, at: Layout, pl: Place, i: nat, e: Entry, inUse: seq<bool>, other: set<nat>)
    requires Shape(mem, at) && pl in at && |pl.path| == 3 && IndexOk(pl, i) && Child(pl, i) in at
    requires Accounted(at, inUse, other) && e.frame in other && Present(e)
    requires e.frame in mem && mem[e.frame].DataPage? && PageOk(mem[e.frame])
    ensures at[pl] in mem && mem[at[pl]].TablePage? && i < |mem[at[pl]].entries|
    ensures var cl := Child(pl, i); var mem' := SetEntry(mem, at[pl], i, e); var at' := at[cl := e.frame];
      && Shape(mem', at') && SamePages(mem, at, mem', at', {cl}) && OtherKept(mem, mem', other)
      && |cl.path| == 4 && Pte(mem', at', cl) == e
  {
    hide Present, Huge, Child, Parent, PathOk, LastIndex, Accounted, Shape, NodeOk, EntryAgrees;
    TableAt(mem, at, pl, i);
    TablePageAt(mem, at, pl);
    NotPlaced(at, inUse, other, e.frame);
    NotOther(at, inUse, other, pl);
    ReplacedShape(mem, at, pl, i, e);
    var cl, mem', at' := Child(pl, i), SetEntry(mem, at[pl], i, e), at[Child(pl, i) := e.frame];
    ChildParent(pl, i);
    ChildLength(pl, i);
    forall ql | ql in at && |ql.path| == 4 && ql != cl
      ensures Pte(mem', at', ql) == Pte(mem, at, ql) && at[ql] in mem && mem'[at[ql]] == mem[at[ql]]
    {
      ReplacedLeaf(mem, at, pl, i, e, ql);
    }
  }

  lemma TablePageAt(mem: Memory, at: Layout, pl: Place)
    requires pl in at && NodeOk(mem, at, pl) && |pl.path| < 4
    ensures at[pl] in mem && mem[at[pl]].TablePage? && |mem[at[pl]].entries| == 512 && PathOk(pl.path)
  {
  }

  lemma ReplacedShape(mem: Memory, at: Layout, pl: Place, i: nat, e: Entry)
    requires Shape(mem, at) && pl in at && |pl.path| == 3 && IndexOk(pl, i) && Child(pl, i) in at
    requires at[pl] in mem && mem[at[pl]].TablePage? && |mem[at[pl]].entries| == 512
    requires (forall ql :: ql in at ==> at[ql] != e.frame) && Present(e)
    requires e.frame in mem && mem[e.frame].DataPage? && PageOk(mem[e.frame])
    ensures Shape(SetEntry(mem, at[pl], i, e), at[Child(pl, i) := e.frame])
  {
    hide Present, Huge, Child, Parent, PathOk, LastIndex, EntryAgrees;
    var cl, mem', at' := Child(pl, i), SetEntry(mem, at[pl], i, e), at[Child(pl, i) := e.frame];
    ChildParent(pl, i);
    ChildLength(pl, i);
    forall ql | ql in at' ensures NodeOk(mem', at', ql) {
      ReplacedNode(mem, at, pl, i, e, ql);
    }
    forall ql, j: nat | ql in at' && |ql.path| < 4 && IndexOk(ql, j) ensures EntryAgrees(mem', at', ql, j) {
      ReplacedEntry(mem, at, pl, i, e, ql, j);
    }
  }

  lemma ReplacedNode(mem: Memory, at: Layout, pl: Place, i: nat, e: Entry, ql: Place)
    requires pl in at && |pl.path| == 3 && |Child(pl, i).path| == 4 && ql in at && NodeOk(mem, at, ql) && i < 512
    requires at[pl] in mem && mem[at[pl]].TablePage? && |mem[at[pl]].entries| == 512
    requires e.frame in mem && mem[e.frame].DataPage? && PageOk(mem[e.frame])
    ensures NodeOk(SetEntry(mem, at[pl], i, e), at[Child(pl, i) := e.frame], ql)
  {
    hide Child, PathOk;
  }

  lemma ReplacedEntry(mem: Memory, at: Layout, pl: Place, i: nat, e: Entry, ql: Place, j: nat)
    requires Shape(mem, at) && pl in at && |pl.path| == 3 && IndexOk(pl, i) && Child(pl, i) in at && i < 512
    requires at[pl] in mem && mem[at[pl]].TablePage? && |mem[at[pl]].entries| == 512 && Present(e)
    requires ql in at && |ql.path| < 4 && IndexOk(ql, j)
    requires |Child(pl, i).path| == 4
    requires var at' := at[Child(pl, i) := e.frame];
      NodeOk(SetEntry(mem, at[pl], i, e), at', ql)
    ensures EntryAgrees(SetEntry(mem, at[pl], i, e), at[Child(pl, i) := e.frame], ql, j)
  {
    hide Present, Huge, Child, Parent, PathOk, LastIndex, Shape;
    TableAt(mem, at, ql, j);
    ChildParent(ql, j);
    ChildParent(pl, i);
    OneNode(mem, at, ql, pl);
  }

  lemma OneNode(mem: Memory, at: Layout, pl: Place, ql: Place)
    requires Shape(mem, at) && pl in at && ql in at
    ensures at[pl] == at[ql] ==> pl == ql
  {
  }

  lemma ReplacedLeaf(mem: Memory, at: Layout, pl: Place, i: nat, e: Entry, ql: Place)
    requires Shape(mem, at) && pl in at && |pl.path| == 3 && Child(pl, i) in at && i < 512
    requires at[pl] in mem && mem[at[pl]].TablePage? && |mem[at[pl]].entries| == 512
    requires Shape(SetEntry(mem, at[pl], i, e), at[Child(pl, i) := e.frame]) && |Child(pl, i).path| == 4
    requires ql in at && |ql.path| == 4 && ql != Child(pl, i)
    ensures var mem', at' := SetEntry(mem, at[pl], i, e), at[Child(pl, i) := e.frame];
      Pte(mem', at', ql) == Pte(mem, at, ql) && at[ql] in mem && mem'[at[ql]] == mem[at[ql]]
  {
    OtherLeaf(mem, at, pl, i, ql);
    NodeThere(mem, at, ql);
    hide Shape, Child;
  }

  lemma NodeThere(mem: Memory, at: Layout, pl: Place)
    requires Shape(mem, at) && pl in at
    ensures NodeOk(mem, at, pl)
  {
  }

  lemma FrameReplaced(mem: Memory, at: Layout, inUse: seq<bool>, other: set<nat>, pl: Place, f: nat)
    requires Shape(mem, at) && Accounted(at, inUse, other) && f in other && pl in at
    ensures Accounted(at[pl := f], inUse, other - {f} + {at[pl]})
  {
    hide Shape;
    var at' := at[pl := f];
    assert at'[pl] == f;
    assert at[pl] in at.Values;
    forall ql | ql in at && ql != pl ensures at[ql] != at[pl] {
      OneNode(mem, at, ql, pl);
    }
    forall g | g in at.Values && g != at[pl] ensures g in at'.Values {
      var ql :| ql in at && at[ql] == g;
      assert at'[ql] == g;
    }
  }

  /** A mapped page has its leaf table. */
  lemma PageNeedsTable(mem: Memory, at: Layout, pl: Place)
    requires Shape(mem, at) && |pl.path| == 4
    ensures Place(pl.root, pl.path[..3]) !in at ==> pl !in at
  {
    if pl in at {
      PrefixThere(mem, at, pl, 3);
    }
  }

  /** A leaf table has the tables above it. */
  lemma TablesAbove(mem: Memory, at: Layout, root: nat, p: seq<nat>)
    requires Shape(mem, at) && |p| == 4
    ensures Place(root, p[..3]) in at ==> Place(root, p[..2]) in at && Place(root, p[..1]) in at
  {
    if Place(root, p[..3]) in at {
      PrefixThere(mem, at, Place(root, p[..3]), 2);
      PrefixThere(mem, at, Place(root, p[..3]), 1);
      assert p[..3][..2] == p[..2] && p[..3][..1] == p[..1];
    }
  }

  lemma StillThere(at: Layout, at': Layout, root: nat, p: seq<nat>)
    requires |p| == 4 && GrewTables(at, at', root, p)
    ensures Place(root, p[..2]) in at ==> Place(root, p[..2]) in at'
    ensures Place(root, p[..3]) in at ==> Place(root, p[..3]) in at'
  {
  }

  lemma SamePlace(mem: Memory, at: Layout, mem': Memory, at': Layout, pl: Place)
    requires Shape(mem, at) && Shape(mem', at') && SamePages(mem, at, mem', at', {}) && |pl.path| == 4
    ensures pl in at' <==> pl in at
    ensures pl in at ==> at'[pl] == at[pl]
    ensures Held(at', pl) == Held(at, pl)
  {
  }

  lemma GrewBeside(at: Layout, at': Layout, pl: Place)
    requires GrewTables(at, at', pl.root, pl.path)
    ensures GrewTables(at - {pl}, at' - {pl}, pl.root, pl.path)
  {
  }

  lemma NotPlaced(at: Layout, inUse: seq<bool>, other: set<nat>, f: nat)
    requires Accounted(at, inUse, other) && f in other
    ensures f !in at.Values && forall pl :: pl in at ==> at[pl] != f
  {
  }

  lemma ReFlag(mem: Memory, at: Layout, pl: Place, i: nat, e: Entry)
    requires Shape(mem, at) && pl in at && |pl.path| == 3 && IndexOk(pl, i) && NodeOk(mem, at, pl)
    requires Child(pl, i) in at && e.frame == at[Child(pl, i)] && Present(e)
    ensures Shape(SetEntry(mem, at[pl], i, e), at) && |Child(pl, i).path| == 4
    ensures SamePages(mem, at, SetEntry(mem, at[pl], i, e), at, {Child(pl, i)})
    ensures Pte(SetEntry(mem, at[pl], i, e), at, Child(pl, i)) == e
    ensures at[Child(pl, i)] in mem && at[Child(pl, i)] != at[pl]
  {
    hide Present, Huge;
    TableAt(mem, at, pl, i);
    FlagsChanged(mem, at, pl, i, e);
    ChildParent(pl, i);
    assert NodeOk(mem, at, Child(pl, i));
  }

  /** An address space with an empty user half adds its root and nothing else. */
  lemma NewRoot(mem: Memory, at: Layout, f: nat, page: Page)
    requires Shape(mem, at) && f !in at.Values && page.TablePage? && |page.entries| == 512
    requires forall i :: 0 <= i < 256 ==> !Present(page.entries[i])
    ensures Place(f, []) !in at
    ensures Shape(mem[f := page], at[Place(f, []) := f])
    ensures SamePages(mem, at, mem[f := page], at[Place(f, []) := f], {})
  {
    hide Present, Huge, Parent, LastIndex;
    var pl, mem', at' := Place(f, []), mem[f := page], at[Place(f, []) := f];
    UnownedWrite(mem, at, f, page);
    forall ql, i: nat | ql in at' && |ql.path| < 4 && IndexOk(ql, i)
      ensures NodeOk(mem', at', ql) && EntryAgrees(mem', at', ql, i)
    {
      if ql == pl {
        ChildParent(pl, i);
        NoGrandchild(at, pl, i);
      } else {
        assert EntryAgrees(mem', at, ql, i);
      }
    }
    forall ql | ql in at ensures at[ql] != f {
      assert at[ql] in at.Values;
    }
  }

  lemma SamePagesSelf(mem: Memory, at: Layout)
    requires Shape(mem, at)
    ensures SamePages(mem, at, mem, at, {})
  {
  }
}
