/**
 Directory slots: the 32-byte records of a directory, how the driver's walks
 over them stop, and the invariant of a whole tree of directories.
 */
module FatSlots {
  import opened Octets
  import opened Arith
  import opened FatLayout
  import opened FatTable
  import opened FatFile

  type Slot = e: seq<byte> | |e| == 32 witness seq(32, _ => 0)
  type Name = n: seq<byte> | |n| == 11 witness seq(11, _ => 32)

  function NameOf(e: Slot): Name { e[..11] }

  function FirstOf(e: Slot): (c: nat) { Word16(e[26], e[27]) + 0x1_0000 * Word16(e[20], e[21]) }

  function SizeOf(e: Slot): (n: nat) { Word32(e[28], e[29], e[30], e[31]) }

  predicate IsEnd(e: Slot) { e[0] == 0 }

  predicate IsDeleted(e: Slot) { e[0] == 0xE5 }

  predicate IsLongName(e: Slot) { e[11] == 0x0F }

  predicate IsLabel(e: Slot) { Rem(Quot(e[11], 8), 2) == 1 }

  predicate IsDir(e: Slot) { Rem(Quot(e[11], 16), 2) == 1 }

  predicate IsDot(e: Slot) { e[0] == 0x2E }

  /** A slot in use under an 8.3 name. */
  predicate IsLive(e: Slot) { !IsEnd(e) && !IsDeleted(e) && !IsLongName(e) }

  /** A slot that names a file or a subdirectory. */
  predicate IsEntry(e: Slot) { IsLive(e) && !IsLabel(e) && !IsDot(e) }

  /** What the driver's name conversion produces for names that fit 8.3. */
  predicate ProperName(n: Name) { n[0] != 0 && n[0] != 0xE5 && n[0] != 0x2E }

  // ----- walking a directory -----

  datatype Callback = Lookup | FindFree | Match

  /** The callbacks' return values (fat.c:365-392, 403-416, 593-608, 691-706):
      0 goes on, 1 stops on a hit, -1 stops at the end mark. */
  function Verdict(cb: Callback, target: Name, e: Slot): (rc: int) {
    match cb
    case Lookup =>
      if IsEnd(e) then -1 else if IsDeleted(e) || IsLabel(e) then 0 else if NameOf(e) == target then 1 else 0
    case FindFree => if IsEnd(e) || IsDeleted(e) then 1 else 0
    case Match =>
      if IsEnd(e) then -1 else if IsDeleted(e) then 0 else if NameOf(e) == target then 1 else 0
  }

  predicate Stops(cb: Callback, target: Name, e: Slot) { !IsLongName(e) && Verdict(cb, target, e) != 0 }

  /** Index of the slot at which the walk stops, or the number of slots. */
  function StopAt(cb: Callback, target: Name, slots: seq<Slot>): (i: nat)
    ensures i <= |slots|
    ensures i < |slots| ==> Stops(cb, target, slots[i])
    ensures forall k :: 0 <= k < i ==> !Stops(cb, target, slots[k])
  {
    if |slots| == 0 then 0
    else if Stops(cb, target, slots[0]) then 0
    else
      var r := StopAt(cb, target, slots[1..]);
      assert forall k :: 1 <= k < r + 1 ==> slots[k] == slots[1..][k - 1];
      r + 1
  }

  lemma StopAtIs(cb: Callback, target: Name, slots: seq<Slot>, i: nat)
    requires i <= |slots| && (forall k :: 0 <= k < i ==> !Stops(cb, target, slots[k]))
    requires i < |slots| ==> Stops(cb, target, slots[i])
    ensures StopAt(cb, target, slots) == i
  {
  }

  // ----- a well-formed directory -----

  /** After the end mark every slot is an end mark, and no two slots in use
      carry the same name. */
  ghost predicate DirOk(slots: seq<Slot>) {
    && (forall i, j :: 0 <= i < j < |slots| && IsEnd(slots[i]) ==> IsEnd(slots[j]))
    && (forall i, j :: 0 <= i < j < |slots| && IsLive(slots[i]) && IsLive(slots[j]) ==>
          NameOf(slots[i]) != NameOf(slots[j]))
    && (forall i :: 0 <= i < |slots| && IsLive(slots[i]) && IsLabel(slots[i]) ==> FirstOf(slots[i]) == 0)
    && (forall i :: 0 <= i < |slots| && IsEnd(slots[i]) ==> !IsLongName(slots[i]))
  }

  /** The slot in use under a name, if any. */
  ghost predicate Named(slots: seq<Slot>, target: Name, i: nat) {
    i < |slots| && IsLive(slots[i]) && NameOf(slots[i]) == target
  }

  /** In a well-formed directory the match walk finds a name exactly when some
      slot in use carries it, and then finds that slot. */
  lemma MatchFinds(slots: seq<Slot>, target: Name)
    requires DirOk(slots) && ProperName(target)
    ensures var i := StopAt(Match, target, slots);
      && (forall j: nat :: Named(slots, target, j) ==> j == i && Verdict(Match, target, slots[i]) == 1)
      && (i < |slots| && Verdict(Match, target, slots[i]) == 1 ==> Named(slots, target, i))
  {
    hide IsLabel, FirstOf;
    var i := StopAt(Match, target, slots);
    forall j: nat | Named(slots, target, j) ensures j == i && Verdict(Match, target, slots[i]) == 1 {
      NamedStops(Match, slots, target, i, j);
    }
  }

  lemma NamedStops(cb: Callback, slots: seq<Slot>, target: Name, i: nat, j: nat)
    requires DirOk(slots) && ProperName(target) && Named(slots, target, j)
    requires cb == Match || (cb == Lookup && !IsLabel(slots[j]))
    requires i == StopAt(cb, target, slots)
    ensures i == j && Verdict(cb, target, slots[i]) == 1
  {
    hide IsLabel, FirstOf;
    assert Stops(cb, target, slots[j]);
  }

  lemma LookupFinds(slots: seq<Slot>, target: Name)
    requires DirOk(slots) && ProperName(target)
    ensures var i := StopAt(Lookup, target, slots);
      && (forall j: nat :: Named(slots, target, j) && !IsLabel(slots[j]) ==>
        j == i && Verdict(Lookup, target, slots[i]) == 1)
      && (i < |slots| && Verdict(Lookup, target, slots[i]) == 1 ==> Named(slots, target, i) && IsEntry(slots[i]))
  {
    hide FirstOf;
    var i := StopAt(Lookup, target, slots);
    forall j: nat | Named(slots, target, j) && !IsLabel(slots[j])
      ensures j == i && Verdict(Lookup, target, slots[i]) == 1
    {
      NamedStops(Lookup, slots, target, i, j);
    }
  }

  /** A volume label with the name stands in front of any entry with it. */
  ghost predicate Shadowed(slots: seq<Slot>, target: Name) {
    exists j: nat :: Named(slots, target, j) && IsLabel(slots[j]) && Unseen(slots, target, j)
  }

  /** No end mark and no slot with the name comes before slot j. */
  ghost predicate Unseen(slots: seq<Slot>, target: Name, j: nat) {
    forall k: nat :: k < j && k < |slots| ==> !Named(slots, target, k) && (IsLongName(slots[k]) || !IsEnd(slots[k]))
  }

  /** The lookup walk skips volume labels and the match walk does not, so the
      two can stop at different slots: exactly when a label hides the name. */
  lemma LookupMeetsMatch(slots: seq<Slot>, target: Name)
    ensures StopAt(Lookup, target, slots) == StopAt(Match, target, slots) <==> !Shadowed(slots, target)
  {
    hide IsLabel, FirstOf;
    var i := StopAt(Match, target, slots);
    forall k | 0 <= k < i ensures !Stops(Lookup, target, slots[k]) {
      assert !Stops(Match, target, slots[k]);
    }
    if i < |slots| && IsLive(slots[i]) && IsLabel(slots[i]) {
      assert !Stops(Lookup, target, slots[i]);
      forall k: nat | k < i ensures !Named(slots, target, k) && (IsLongName(slots[k]) || !IsEnd(slots[k])) {
        assert !Stops(Match, target, slots[k]);
      }
      assert Named(slots, target, i) && Unseen(slots, target, i);
    } else {
      StopAtIs(Lookup, target, slots, i);
      forall j: nat | Named(slots, target, j) && IsLabel(slots[j]) ensures !Unseen(slots, target, j) {
        assert Stops(Match, target, slots[j]);
      }
    }
  }

  /** They do differ: a volume label in front of a file of the same name hides
      the file from updates and removal, though lookup finds it. */
  lemma LabelShadows(target: Name)
    requires ProperName(target)
    ensures var tag: Slot, file: Slot := target + [0x08] + seq(20, _ => 0), target + [0] + seq(20, _ => 0);
      StopAt(Match, target, [tag, file]) == 0 && StopAt(Lookup, target, [tag, file]) == 1
  {
    var tag: Slot, file: Slot := target + [0x08] + seq(20, _ => 0), target + [0] + seq(20, _ => 0);
    assert NameOf(tag) == target && NameOf(file) == target && tag[0] == target[0] == file[0];
    StopAtIs(Match, target, [tag, file], 0);
    StopAtIs(Lookup, target, [tag, file], 1);
  }

  // ----- the directory tree -----

  /** What the directories of a volume hold (keyed by first cluster, 0 for the
      fixed root) and which clusters head an allocated chain. */
  datatype Tree = Tree(root: nat, dirs: map<nat, seq<Slot>>, heads: set<nat>)

  /** The chain an entry points to exists and is of the right kind. */
  ghost predicate RefOk(t: Tree, e: Slot) {
    if IsDir(e) then FirstOf(e) in t.dirs && FirstOf(e) != t.root && FirstOf(e) in t.heads
    else (FirstOf(e) == 0 && SizeOf(e) == 0) || (FirstOf(e) in t.heads && FirstOf(e) !in t.dirs)
  }

  /** Slot i of directory x points to the chain headed by c. */
  ghost predicate Points(t: Tree, x: nat, i: nat, c: nat) {
    x in t.dirs && i < |t.dirs[x]| && IsEntry(t.dirs[x][i]) && FirstOf(t.dirs[x][i]) == c && c != 0
  }

  ghost predicate TreeOk(t: Tree) {
    && t.root in t.dirs && 0 !in t.heads
    && (forall x :: x in t.dirs ==> (x == 0 || x in t.heads) && DirOk(t.dirs[x]))
    && (forall x, i :: x in t.dirs && 0 <= i < |t.dirs[x]| && IsEntry(t.dirs[x][i]) ==> RefOk(t, t.dirs[x][i]))
    && (forall x, i, y, j, c :: Points(t, x, i, c) && Points(t, y, j, c) ==> x == y && i == j)
  }

  /** Removing an entry, with the directory it names if it is one. */
  function Removed(t: Tree, x: nat, i: nat): (r: Tree)
    requires x in t.dirs && i < |t.dirs[x]|
  {
    var e := t.dirs[x][i];
    var dirs := t.dirs[x := t.dirs[x][i := e[0 := 0xE5]]];
    if FirstOf(e) == 0 then Tree(t.root, dirs, t.heads)
    else Tree(t.root, dirs - {FirstOf(e)}, t.heads - {FirstOf(e)})
  }

  lemma DeletedSlot(e: Slot)
    ensures IsDeleted(e[0 := 0xE5]) && !IsEnd(e[0 := 0xE5]) && !IsLive(e[0 := 0xE5]) && !IsEntry(e[0 := 0xE5])
  {
  }

  lemma DirOkDeleted(slots: seq<Slot>, i: nat)
    requires DirOk(slots) && i < |slots| && IsLive(slots[i])
    ensures DirOk(slots[i := slots[i][0 := 0xE5]])
  {
    DeletedSlot(slots[i]);
    hide IsEnd, IsLive, IsLabel, FirstOf, NameOf;
    assert !IsEnd(slots[i]) by { LiveIsNotEnd(slots[i]); }
  }

  lemma LiveIsNotEnd(e: Slot)
    requires IsLive(e)
    ensures !IsEnd(e)
  {
  }

  lemma RemovedPoints(t: Tree, x: nat, i: nat, y: nat, j: nat, c: nat)
    requires x in t.dirs && i < |t.dirs[x]| && Points(Removed(t, x, i), y, j, c)
    ensures Points(t, y, j, c) && !(y == x && j == i)
  {
    DeletedSlot(t.dirs[x][i]);
    hide IsEntry, FirstOf;
  }

  lemma RemovedOk(t: Tree, x: nat, i: nat)
    requires TreeOk(t) && x in t.dirs && i < |t.dirs[x]|
    requires IsLive(t.dirs[x][i]) && !IsDot(t.dirs[x][i])
    ensures TreeOk(Removed(t, x, i))
  {
    var e, r := t.dirs[x][i], Removed(t, x, i);
    assert FirstOf(e) != 0 ==> RefOk(t, e) && FirstOf(e) != t.root;
    hide Points, RefOk, IsEntry, DirOk, FirstOf, IsLive, IsDot;
    DirOkDeleted(t.dirs[x], i);
    forall y, j, c | Points(r, y, j, c) ensures Points(t, y, j, c) && !(y == x && j == i) {
      RemovedPoints(t, x, i, y, j, c);
    }
    forall y, j | y in r.dirs && 0 <= j < |r.dirs[y]| && IsEntry(r.dirs[y][j]) ensures RefOk(r, r.dirs[y][j]) {
      RemovedRef(t, x, i, y, j);
    }
  }

  lemma RemovedRef(t: Tree, x: nat, i: nat, y: nat, j: nat)
    requires TreeOk(t) && x in t.dirs && i < |t.dirs[x]|
    requires IsLive(t.dirs[x][i]) && !IsDot(t.dirs[x][i])
    requires var r := Removed(t, x, i); y in r.dirs && j < |r.dirs[y]| && IsEntry(r.dirs[y][j])
    ensures RefOk(Removed(t, x, i), Removed(t, x, i).dirs[y][j])
  {
    var e, r := t.dirs[x][i], Removed(t, x, i);
    var k := r.dirs[y][j];
    DeletedSlot(e);
    assert k == t.dirs[y][j];
    assert RefOk(t, k);
    if FirstOf(k) != 0 && FirstOf(k) == FirstOf(e) {
      assert Points(t, y, j, FirstOf(k));
      if !IsLabel(e) {
        assert Points(t, x, i, FirstOf(e));
      }
    }
  }

  // ----- updating an entry -----

  /** The flush of size and first cluster into an entry (fat.c:601-604). */
  function Patched(e: Slot, first: nat, size: nat): (r: Slot) {
    e[26 := ByteOf(first, 0)][27 := ByteOf(first, 1)][20 := ByteOf(first, 2)][21 := ByteOf(first, 3)]
     [28 := ByteOf(size, 0)][29 := ByteOf(size, 1)][30 := ByteOf(size, 2)][31 := ByteOf(size, 3)]
  }

  lemma PatchedFields(e: Slot, first: nat, size: nat)
    requires first < 0x1_0000_0000 && size < 0x1_0000_0000
    ensures FirstOf(Patched(e, first, size)) == first && SizeOf(Patched(e, first, size)) == size
    ensures var r := Patched(e, first, size);
      && NameOf(r) == NameOf(e) && r[0] == e[0] && r[11] == e[11]
      && (IsLive(r) <==> IsLive(e)) && (IsEntry(r) <==> IsEntry(e)) && (IsEnd(r) <==> IsEnd(e))
      && (IsLabel(r) <==> IsLabel(e)) && (IsLongName(r) <==> IsLongName(e)) && (IsDir(r) <==> IsDir(e))
  {
    hide ByteOf;
    var r := Patched(e, first, size);
    WordRoundTrip(first);
    WordRoundTrip(size);
    assert r[..11] == e[..11];
  }

  /** Slot i of directory x becomes e. */
  function Placed(t: Tree, x: nat, i: nat, e: Slot): (r: Tree)
    requires x in t.dirs && i < |t.dirs[x]|
  {
    var slots: seq<Slot> := t.dirs[x];
    Tree(t.root, t.dirs[x := slots[i := e]], t.heads)
  }

  lemma PlacedOk(t: Tree, x: nat, i: nat, e: Slot)
    requires TreeOk(t) && x in t.dirs && i < |t.dirs[x]| && IsEntry(e)
    requires DirOk(t.dirs[x][i := e]) && RefOk(t, e)
    requires forall y, j :: Points(t, y, j, FirstOf(e)) ==> y == x && j == i
    ensures TreeOk(Placed(t, x, i, e))
  {
    hide DirOk, FirstOf, SizeOf, IsEntry, IsDir;
    var r := Placed(t, x, i, e);
    forall y, j | y in r.dirs && 0 <= j < |r.dirs[y]| && IsEntry(r.dirs[y][j]) ensures RefOk(r, r.dirs[y][j]) {
      if !(y == x && j == i) {
        assert r.dirs[y][j] == t.dirs[y][j];
      }
    }
    forall y, j, y', j', c | Points(r, y, j, c) && Points(r, y', j', c) ensures y == y' && j == j' {
      PlacedPoints(t, x, i, e, y, j, c);
      PlacedPoints(t, x, i, e, y', j', c);
    }
  }

  lemma PlacedPoints(t: Tree, x: nat, i: nat, e: Slot, y: nat, j: nat, c: nat)
    requires x in t.dirs && i < |t.dirs[x]| && Points(Placed(t, x, i, e), y, j, c)
    ensures (y == x && j == i && c == FirstOf(e)) || (!(y == x && j == i) && Points(t, y, j, c))
  {
    hide FirstOf, IsEntry;
  }

  /** A fresh chain head that nothing refers to yet. */
  lemma HeadAdded(t: Tree, c: nat)
    requires TreeOk(t) && c != 0 && c !in t.heads
    ensures TreeOk(t.(heads := t.heads + {c}))
    ensures forall y: nat, j: nat :: !Points(t.(heads := t.heads + {c}), y, j, c)
  {
    hide DirOk, FirstOf, SizeOf, IsEntry, IsDir;
    var r := t.(heads := t.heads + {c});
    forall y: nat, j: nat ensures !Points(r, y, j, c) {
    }
    forall y, j | y in r.dirs && 0 <= j < |r.dirs[y]| && IsEntry(r.dirs[y][j]) ensures RefOk(r, r.dirs[y][j]) {
      assert RefOk(t, t.dirs[y][j]);
    }
    forall y, j, y', j', k | Points(r, y, j, k) && Points(r, y', j', k) ensures y == y' && j == j' {
      assert Points(t, y, j, k) && Points(t, y', j', k);
    }
  }

  /** Recording a written file's size and first cluster. */
  lemma UpdatedOk(t: Tree, x: nat, i: nat, first: nat, size: nat)
    requires TreeOk(t) && x in t.dirs && i < |t.dirs[x]|
    requires IsEntry(t.dirs[x][i]) && !IsDir(t.dirs[x][i])
    requires first < 0x1_0000_0000 && size < 0x1_0000_0000
    requires first == 0 ==> size == 0
    requires first != 0 ==> first in t.heads && first !in t.dirs
    requires forall y, j :: Points(t, y, j, first) ==> y == x && j == i
    ensures TreeOk(Placed(t, x, i, Patched(t.dirs[x][i], first, size)))
  {
    var slots := t.dirs[x];
    var e := Patched(slots[i], first, size);
    PatchedFields(slots[i], first, size);
    assert DirOk(slots[i := e]) by {
      EntryIsNotLabel(slots[i]);
      hide IsEnd, IsLive, IsLabel, IsLongName, NameOf, FirstOf, Patched, IsEntry, SizeOf, IsDir;
    }
    assert RefOk(t, e);
    hide Patched, DirOk, FirstOf, IsEntry, SizeOf, RefOk, IsDir;
    PlacedOk(t, x, i, e);
  }

  lemma EntryIsNotLabel(e: Slot)
    requires IsEntry(e)
    ensures !IsLabel(e)
  {
  }

  // ----- adding an entry -----

  /** A free slot of a well-formed directory takes a new name. */
  lemma DirOkFilled(slots: seq<Slot>, i: nat, e: Slot)
    requires DirOk(slots) && i < |slots| && i == StopAt(FindFree, NameOf(e), slots)
    requires IsEntry(e) && forall j: nat :: !Named(slots, NameOf(e), j)
    ensures DirOk(slots[i := e])
  {
    EntryIsNotLabel(e);
    var r := slots[i := e];
    assert Stops(FindFree, NameOf(e), slots[i]);
    forall j | 0 <= j < i ensures !IsEnd(slots[j]) {
      assert !Stops(FindFree, NameOf(e), slots[j]);
    }
    forall j | 0 <= j < |slots| && IsLive(slots[j]) ensures NameOf(slots[j]) != NameOf(e) {
      assert !Named(slots, NameOf(e), j);
    }
    assert !IsEnd(e) && IsLive(e);
    hide IsEnd, IsLive, IsLabel, IsLongName, NameOf, FirstOf, IsEntry;
  }

  /** Appending cleared slots keeps a directory well formed. */
  lemma DirOkGrown(slots: seq<Slot>, zeros: seq<Slot>)
    requires DirOk(slots) && forall i :: 0 <= i < |zeros| ==> IsEnd(zeros[i]) && !IsLongName(zeros[i])
    ensures DirOk(slots + zeros)
  {
    var r := slots + zeros;
    assert forall i :: |slots| <= i < |r| ==> r[i] == zeros[i - |slots|];
    assert forall i :: |slots| <= i < |r| ==> IsEnd(r[i]) && !IsLongName(r[i]) && !IsLive(r[i]);
    hide IsEnd, IsLive, IsLabel, IsLongName, NameOf, FirstOf;
  }

  /** The tree after directory x got some cleared slots more. */
  function GrownTree(t: Tree, x: nat, zeros: seq<Slot>): (r: Tree)
    requires x in t.dirs
  {
    t.(dirs := t.dirs[x := t.dirs[x] + zeros])
  }

  /** Growing a directory adds no entry. */
  lemma GrownOk(t: Tree, x: nat, zeros: seq<Slot>)
    requires TreeOk(t) && x in t.dirs
    requires forall i :: 0 <= i < |zeros| ==> IsEnd(zeros[i]) && !IsLongName(zeros[i])
    ensures TreeOk(GrownTree(t, x, zeros))
    ensures forall y: nat, j: nat, c: nat :: Points(GrownTree(t, x, zeros), y, j, c) ==> Points(t, y, j, c)
  {
    DirOkGrown(t.dirs[x], zeros);
    var r := GrownTree(t, x, zeros);
    forall y, j | y in r.dirs && 0 <= j < |r.dirs[y]| && IsEntry(r.dirs[y][j])
      ensures j < |t.dirs[y]| && r.dirs[y][j] == t.dirs[y][j]
    {
    }
    hide DirOk, FirstOf, SizeOf, IsEntry, IsDir, IsEnd, IsLongName;
    forall y, j | y in r.dirs && 0 <= j < |r.dirs[y]| && IsEntry(r.dirs[y][j]) ensures RefOk(r, r.dirs[y][j]) {
      assert RefOk(t, t.dirs[y][j]);
    }
    forall y, j, c | Points(r, y, j, c) ensures Points(t, y, j, c) {
    }
  }

  /** The tree with a new directory headed by c. */
  function WithDir(t: Tree, c: nat, slots: seq<Slot>): (r: Tree) {
    Tree(t.root, t.dirs[c := slots], t.heads + {c})
  }

  /** A new directory that holds no entries yet. */
  lemma NewDirOk(t: Tree, c: nat, slots: seq<Slot>)
    requires TreeOk(t) && c != 0 && c !in t.heads
    requires DirOk(slots) && forall i :: 0 <= i < |slots| ==> !IsEntry(slots[i])
    ensures TreeOk(WithDir(t, c, slots))
    ensures forall y: nat, j: nat :: !Points(WithDir(t, c, slots), y, j, c)
  {
    hide DirOk, FirstOf, SizeOf, IsEntry, IsDir;
    HeadAdded(t, c);
    var m := t.(heads := t.heads + {c});
    var r := WithDir(t, c, slots);
    assert c !in t.dirs;
    forall y, j, k | Points(r, y, j, k) ensures Points(m, y, j, k) {
    }
    forall y, j | y in r.dirs && 0 <= j < |r.dirs[y]| && IsEntry(r.dirs[y][j]) ensures RefOk(r, r.dirs[y][j]) {
      assert RefOk(m, m.dirs[y][j]) && !Points(m, y, j, c);
    }
  }
}
