/**
 The task table and its run queue: a circular list through the table that always
 holds the idle task. Scheduling, insertion and slot recycling keep it one cycle,
 and a task that stays ready is reached after a bounded number of turns.
 */
module Tasks {
  import opened Seqs

  const TASK_MAX := 64

  datatype State = Ready | Running | Blocked | Stopped | Dead

  /** One slot; next is -1 for null. A slot is free when it has no name and reads
      as ready, which is what clearing it leaves. */
  datatype Task = Task(named: bool, state: State, next: int)

  const CLEARED := Task(false, Ready, -1)

  predicate Unused(t: Task) { !t.named && t.state == Ready }

  predicate Runnable(t: Task) { t.state == Ready || t.state == Running }

  // ----- the cycle -----

  ghost function After(ring: seq<nat>, i: nat): nat
    requires i < |ring|
  {
    if i + 1 < |ring| then ring[i + 1] else ring[0]
  }

  /** The list from cur runs once through `ring` and back. */
  ghost predicate Cycle(ts: seq<Task>, cur: nat, ring: seq<nat>) {
    && ring != [] && ring[0] == cur && Distinct(ring)
    && forall i: nat :: i < |ring| ==> ring[i] < |ts| && ts[ring[i]].next == After(ring, i)
  }

  ghost function IndexOf(ring: seq<nat>, t: nat): (i: nat)
    requires t in ring
    ensures i < |ring| && ring[i] == t
  {
    if ring[0] == t then 0 else 1 + IndexOf(ring[1..], t)
  }

  lemma IndexUnique(ring: seq<nat>, i: nat)
    requires Distinct(ring) && i < |ring|
    ensures IndexOf(ring, ring[i]) == i
  {
  }

  ghost function Rotated(ring: seq<nat>, j: nat): seq<nat>
    requires j <= |ring|
  {
    ring[j..] + ring[..j]
  }

  lemma RotatedCycle(ts: seq<Task>, cur: nat, ring: seq<nat>, j: nat)
    requires Cycle(ts, cur, ring) && j < |ring|
    ensures Cycle(ts, ring[j], Rotated(ring, j))
    ensures forall t :: t in Rotated(ring, j) <==> t in ring
  {
    var r := Rotated(ring, j);
    forall t | t in ring ensures t in r {
      var i :| 0 <= i < |ring| && ring[i] == t;
      assert r[if i >= j then i - j else i + |ring| - j] == t;
    }
    assert forall i :: 0 <= i < |r| ==> r[i] == if i < |ring| - j then ring[i + j] else ring[i + j - |ring|];
  }

  lemma RotatedIndex(ring: seq<nat>, j: nat, t: nat)
    requires Distinct(ring) && t in ring && j <= IndexOf(ring, t)
    ensures t in Rotated(ring, j) && IndexOf(Rotated(ring, j), t) == IndexOf(ring, t) - j
  {
    var r, i := Rotated(ring, j), IndexOf(ring, t);
    assert r[i - j] == t;
    assert Distinct(r);
    IndexUnique(r, i - j);
  }

  /** Inserting after the current task. */
  lemma InsertedCycle(ts: seq<Task>, cur: nat, ring: seq<nat>, t: nat, task: Task)
    requires Cycle(ts, cur, ring) && t < |ts| && t !in ring && task.next == ts[cur].next
    ensures cur < |ts| && Cycle(ts[t := task][cur := ts[cur].(next := t)], cur, [cur, t] + ring[1..])
  {
    var r := [cur, t] + ring[1..];
    assert forall i :: 2 <= i < |r| ==> r[i] == ring[i - 1];
  }

  /** The table after the task at index k was unlinked and overwritten. */
  ghost function Unlinked(ts: seq<Task>, ring: seq<nat>, k: nat, v: Task): (r: seq<Task>)
    requires 0 < k < |ring| && ring[k] < |ts| && ring[k - 1] < |ts|
    ensures |r| == |ts|
  {
    ts[ring[k - 1] := ts[ring[k - 1]].(next := ts[ring[k]].next)][ring[k] := v]
  }

  lemma RemovedLink(ts: seq<Task>, cur: nat, ring: seq<nat>, k: nat, v: Task, r: seq<nat>, i: nat)
    requires Cycle(ts, cur, ring) && 0 < k < |ring| && r == ring[..k] + ring[k + 1..] && i < |r|
    ensures r[i] < |ts| && Unlinked(ts, ring, k, v)[r[i]].next == After(r, i)
  {
    hide Cycle, Distinct;
    var o := if i < k then i else i + 1;
    Links(ts, cur, ring, o, k);
    Links(ts, cur, ring, o, k - 1);
    Links(ts, cur, ring, k, k);
    Links(ts, cur, ring, k - 1, k);
  }

  lemma RemovedCycle(ts: seq<Task>, cur: nat, ring: seq<nat>, k: nat, v: Task)
    requires Cycle(ts, cur, ring) && 0 < k < |ring|
    ensures Cycle(Unlinked(ts, ring, k, v), cur, ring[..k] + ring[k + 1..])
  {
    hide Distinct, Unlinked;
    var r := ring[..k] + ring[k + 1..];
    WithoutDistinct(ring, k);
    forall i: nat | i < |r| ensures r[i] < |ts| && Unlinked(ts, ring, k, v)[r[i]].next == After(r, i) {
      RemovedLink(ts, cur, ring, k, v, r, i);
    }
  }

  lemma Differ(ring: seq<nat>, i: nat, j: nat)
    requires Distinct(ring) && i < |ring| && j < |ring|
    ensures ring[i] == ring[j] <==> i == j
  {
  }

  lemma WithoutDistinct(ring: seq<nat>, k: nat)
    requires Distinct(ring) && k < |ring|
    ensures var r := ring[..k] + ring[k + 1..];
      Distinct(r) && forall i :: 0 <= i < |r| ==> r[i] == if i < k then ring[i] else ring[i + 1]
  {
  }

  lemma WithoutHas(ring: seq<nat>, k: nat, r: seq<nat>, t: nat)
    requires Distinct(ring) && k < |ring| && r == ring[..k] + ring[k + 1..]
    ensures t in r <==> t in ring && t != ring[k]
  {
    hide Distinct;
    WithoutDistinct(ring, k);
    if t in r {
      var j :| 0 <= j < |r| && r[j] == t;
      Differ(ring, if j < k then j else j + 1, k);
    }
    if t in ring && t != ring[k] {
      var i :| 0 <= i < |ring| && ring[i] == t;
      assert r[if i < k then i else i - 1] == t;
    }
  }

  lemma Without(ring: seq<nat>, k: nat, r: seq<nat>, t: nat)
    requires Distinct(ring) && k < |ring| && r == ring[..k] + ring[k + 1..]
    ensures t in r <==> t in ring && t != ring[k]
    ensures t in r ==> t in ring && IndexOf(r, t) <= IndexOf(ring, t)
  {
    hide Distinct, IndexOf;
    WithoutHas(ring, k, r, t);
    WithoutDistinct(ring, k);
    if t in r {
      var i := IndexOf(ring, t);
      IndexUnique(r, if i < k then i else i - 1);
    }
  }

  // ----- the scheduler -----

  class Scheduler {
    const tasks: array<Task>
    var current: nat
    ghost var ring: seq<nat>

    /** One cycle with the idle task on it; what is dead is on the cycle, what is
        on the cycle has a name, and idle is always runnable. */
    ghost predicate Valid()
      reads this, tasks
    {
      && tasks.Length == TASK_MAX && Cycle(tasks[..], current, ring) && 0 in ring
      && Runnable(tasks[0])
      && (forall i :: 0 <= i < TASK_MAX && tasks[i].state == Dead ==> i in ring)
      && (forall t :: t in ring ==> tasks[t].named)
    }

    constructor ()
      ensures Valid() && fresh(tasks) && current == 0 && ring == [0]
    {
      tasks := new Task[TASK_MAX](i => if i == 0 then Task(true, Running, 0) else CLEARED);
      current := 0;
      ring := [0];
    }

    /** The predecessor of a task on the list, found by walking from the task.
        The walk cannot come back to the task first. */
    method FindPrevious(victim: nat) returns (prev: nat, ghost k: nat)
      requires tasks.Length == TASK_MAX && Cycle(tasks[..], current, ring) && victim in ring && victim != current
      ensures 0 < k < |ring| && ring[k] == victim && ring[k - 1] == prev
    {
      hide IndexOf, Distinct;
      k := IndexOf(ring, victim);
      prev := victim;
      ghost var j: nat := k;
      Links(tasks[..], current, ring, j, k);
      while tasks[prev].next != victim
        invariant j < |ring| && ring[j] == prev && prev < TASK_MAX && tasks[prev].next == After(ring, j)
        invariant After(ring, j) == victim <==> j + 1 == k
        decreases if j >= k then |ring| + k - j else k - j
      {
        prev := tasks[prev].next;
        j := if j + 1 < |ring| then j + 1 else 0;
        Links(tasks[..], current, ring, j, k);
      }
    }

    method ListRemove(victim: nat)
      requires Valid() && victim in ring && victim != current && victim != 0
      modifies this`ring, tasks
      ensures tasks[victim] == old(tasks[victim]).(next := -1)
      ensures forall i :: 0 <= i < TASK_MAX && i != victim ==> SameButNext(tasks[i], old(tasks[i]))
      ensures Cycle(tasks[..], current, ring)
      ensures forall t :: t in ring <==> t in old(ring) && t != victim
      ensures forall t :: t in ring ==> IndexOf(ring, t) <= IndexOf(old(ring), t)
    {
      hide IndexOf, Distinct, Cycle;
      var prev;
      ghost var k;
      prev, k := FindPrevious(victim);
      Links(tasks[..], current, ring, k - 1, k);
      Links(tasks[..], current, ring, k, k);
      ghost var ts := tasks[..];
      RemovedCycle(ts, current, ring, k, ts[victim].(next := -1));
      ghost var r := ring[..k] + ring[k + 1..];
      forall t: nat ensures t in r <==> t in ring && t != victim {
        Without(ring, k, r, t);
      }
      forall t: nat | t in r ensures IndexOf(r, t) <= IndexOf(ring, t) {
        Without(ring, k, r, t);
      }
      tasks[prev] := tasks[prev].(next := tasks[victim].next);
      tasks[victim] := tasks[victim].(next := -1);
      assert tasks[..] == ts[prev := ts[prev].(next := ts[victim].next)][victim := ts[victim].(next := -1)];
      ring := r;
    }

    /** A slot for a new task: the first unused one, else that of the first dead
        task, which leaves the list. `stack` says whether the heap had room for a
        stack; a slot that gets none stays named and off the list. */
    method Alloc(stack: bool) returns (t: nat, ghost slot: nat)
      requires Valid() && tasks[current].state != Dead
      modifies this`ring, tasks
      ensures Valid() && NoFurther(old(ring), ring) && slot < TASK_MAX && t == if stack then slot else 0
      ensures FirstSlot(old(tasks[..]), slot)
      ensures slot != 0 ==> slot !in ring && tasks[slot] == Task(true, Ready, -1)
      ensures forall i :: 0 <= i < TASK_MAX && (i != slot || i == 0) ==>
        SameButNext(tasks[i], old(tasks[i])) && (i in ring <==> i in old(ring))
    {
      hide IndexOf, Cycle;
      t := 1;
      while t < TASK_MAX && !Unused(tasks[t])
        invariant 1 <= t <= TASK_MAX && forall i :: 1 <= i < t ==> !Unused(tasks[i])
        modifies {}
      {
        t := t + 1;
      }
      if t == TASK_MAX {
        t := 1;
        while t < TASK_MAX && tasks[t].state != Dead
          invariant 1 <= t <= TASK_MAX && forall i :: 1 <= i < t ==> tasks[i].state != Dead
          modifies {}
        {
          t := t + 1;
        }
        if t == TASK_MAX {
          return 0, 0;
        }
        ListRemove(t);
      }
      slot := t;
      OffCycle(tasks[..], current, ring, t, Task(true, Ready, -1));
      ghost var ts := tasks[..];
      tasks[t] := Task(true, Ready, -1);
      assert tasks[..] == ts[t := Task(true, Ready, -1)];
      if !stack {
        t := 0;
      }
    }

    /** Change the state of a listed task. Nothing comes back from the dead. */
    method SetState(t: nat, to: State)
      requires Valid() && t in ring && t != 0 && (tasks[t].state == Dead ==> to == Dead)
      modifies tasks
      ensures Valid() && tasks[..] == old(tasks[..])[t := old(tasks[..])[t].(state := to)]
    {
      hide IndexOf, Cycle;
      ghost var ts := tasks[..];
      Links(ts, current, ring, IndexOf(ring, t), 0);
      tasks[t] := tasks[t].(state := to);
      SameLinks(ts, tasks[..], current, ring);
    }

    /** Link a task in right after the current one. */
    method InsertReady(t: nat)
      requires Valid() && 0 < t < TASK_MAX && t !in ring && tasks[t].named && tasks[t].state != Dead
      modifies this`ring, tasks
      ensures Valid() && ring == [current, t] + old(ring)[1..]
      ensures forall i :: 0 <= i < TASK_MAX ==> SameButNext(tasks[i], old(tasks[i]))
      ensures forall u :: u in old(ring) ==> u in ring && IndexOf(ring, u) <= IndexOf(old(ring), u) + 1
    {
      hide IndexOf, Cycle;
      ghost var ts := tasks[..];
      Links(ts, current, ring, 0, 0);
      ghost var task := ts[t].(next := ts[current].next);
      InsertedCycle(ts, current, ring, t, task);
      forall u: nat | u in ring
        ensures u in [current, t] + ring[1..] && IndexOf([current, t] + ring[1..], u) <= IndexOf(ring, u) + 1
      {
        InsertedIndex(ring, t, u);
      }
      tasks[t] := tasks[t].(next := tasks[current].next);
      tasks[current] := tasks[current].(next := t);
      assert tasks[..] == ts[t := task][current := ts[current].(next := t)];
      ring := [current, t] + ring[1..];
    }

    /** The next runnable task after the current one, which may be the current
        one again. The idle task bounds the search. */
    method Pick() returns (next: nat, ghost j: nat)
      requires Valid()
      ensures j < |ring| && next == ring[j] && Runnable(tasks[next])
      ensures forall i: nat :: (if j == 0 then 0 < i < |ring| else 0 < i < j) ==>
        ring[i] < TASK_MAX && !Runnable(tasks[ring[i]])
    {
      hide IndexOf, Distinct, Cycle, Runnable;
      ghost var ts, m := tasks[..], IndexOf(ring, 0);
      Links(ts, current, ring, 0, 0);
      next := tasks[current].next;
      var start, more := next, true;
      ghost var k: nat := 1;
      while more && !Runnable(tasks[next])
        invariant 1 <= k <= |ring| && next < TASK_MAX && next == (if k < |ring| then ring[k] else ring[0]) && more
        invariant start == (if 1 < |ring| then ring[1] else ring[0]) && (m > 0 ==> k <= m)
        invariant forall i: nat :: 0 < i < k ==> ring[i] < TASK_MAX && !Runnable(tasks[ring[i]])
        decreases |ring| - k
      {
        Links(ts, current, ring, if k < |ring| then k else 0, 0);
        if k + 1 < |ring| {
          Links(ts, current, ring, k + 1, 1);
        } else if 1 < |ring| {
          Links(ts, current, ring, 0, 1);
        }
        next := tasks[next].next;
        k := k + 1;
        more := next != start;
      }
      j := if k < |ring| then k else 0;
    }

    /** Switch to the task picked. Nothing that is not runnable is ever picked, so
        the panic for a dead task is never reached. */
    method Schedule() returns (ghost j: nat)
      requires Valid()
      modifies this`current, this`ring, tasks
      ensures Valid() && j < |old(ring)| && ring == Rotated(old(ring), j) && current == old(ring)[j]
      ensures Runnable(old(tasks[..])[current])
      ensures forall i: nat :: (if j == 0 then 0 < i < |old(ring)| else 0 < i < j) ==>
        old(ring)[i] < TASK_MAX && !Runnable(old(tasks[..])[old(ring)[i]])
      ensures forall i: nat :: i < TASK_MAX ==>
        tasks[i] == if j == 0 then old(tasks[..])[i] else Switched(old(tasks[..])[i], i, old(current), current)
    {
      hide IndexOf, Distinct, Cycle, Rotated;
      ghost var ts := tasks[..];
      var next;
      next, j := Pick();
      Links(ts, current, ring, 0, 0);
      assert !(next == current && tasks[current].state == Dead);
      RotatedCycle(ts, current, ring, j);
      Links(ts, current, ring, j, 0);
      if next != current {
        if tasks[current].state == Running {
          tasks[current] := tasks[current].(state := Ready);
        }
        tasks[next] := tasks[next].(state := Running);
        SameLinks(ts, tasks[..], ring[j], Rotated(ring, j));
        current := next;
      }
      ring := Rotated(ring, j);
    }
  }

  function Switched(t: Task, i: nat, was: nat, now: nat): Task {
    if i == now then t.(state := Running) else if i == was && t.state == Running then t.(state := Ready) else t
  }

  /** The slot that allocation takes: the first unused one, else the first dead one;
      0 when there is neither. */
  ghost predicate FirstSlot(ts: seq<Task>, slot: nat) {
    if slot == 0 || slot >= |ts| then slot == 0 && forall i :: 1 <= i < |ts| ==> !Unused(ts[i]) && ts[i].state != Dead
    else if Unused(ts[slot]) then forall i :: 1 <= i < slot ==> !Unused(ts[i])
    else
      && ts[slot].state == Dead && (forall i :: 1 <= i < |ts| ==> !Unused(ts[i]))
      && forall i :: 1 <= i < slot ==> ts[i].state != Dead
  }

  lemma OffCycle(ts: seq<Task>, cur: nat, ring: seq<nat>, t: nat, v: Task)
    requires Cycle(ts, cur, ring) && t < |ts| && t !in ring
    ensures Cycle(ts[t := v], cur, ring)
  {
  }

  lemma SameLinks(ts: seq<Task>, ts': seq<Task>, cur: nat, ring: seq<nat>)
    requires Cycle(ts, cur, ring) && |ts'| == |ts| && forall i :: 0 <= i < |ts| ==> ts'[i].next == ts[i].next
    ensures Cycle(ts', cur, ring)
  {
  }

  lemma InsertedIndex(ring: seq<nat>, t: nat, u: nat)
    requires Distinct(ring) && ring != [] && u in ring && t !in ring
    ensures var r := [ring[0], t] + ring[1..]; u in r && IndexOf(r, u) <= IndexOf(ring, u) + 1
  {
    var r, i := [ring[0], t] + ring[1..], IndexOf(ring, u);
    var k := if i == 0 then 0 else i + 1;
    assert r[k] == u;
    assert Distinct(r);
    IndexUnique(r, k);
  }

  /** Tasks left on the list are no further from the front than before. */
  ghost predicate NoFurther(ring: seq<nat>, ring': seq<nat>) {
    forall t :: t in ring' ==> t in ring && IndexOf(ring', t) <= IndexOf(ring, t)
  }

  predicate SameButNext(t: Task, u: Task) { t.state == u.state && t.named == u.named }

  lemma Links(ts: seq<Task>, cur: nat, ring: seq<nat>, j: nat, k: nat)
    requires Cycle(ts, cur, ring) && j < |ring| && k < |ring|
    ensures ring[0] == cur && Distinct(ring) && ring[j] < |ts| && ts[ring[j]].next == After(ring, j) < |ts|
    ensures k > 0 ==> (After(ring, j) == ring[k] <==> j + 1 == k)
    ensures ring[j] == ring[k] <==> j == k
  {
  }

  // ----- runs -----

  /** What happens between two points where the kernel yields: the current task
      creates a task, the state of a listed task changes (named by how far along
      the list it is), or a switch. */
  datatype Step = Create(stack: bool) | Change(hops: nat, to: State) | Switch

  /** The state changes that signals, pause and exit make. */
  predicate Allowed(was: State, to: State) {
    match to
    case Dead => was != Dead
    case Stopped => was != Dead
    case Blocked => was == Running || was == Ready
    case Ready => was == Stopped || was == Blocked
    case Running => false
  }

  /** The state of a task that is followed, and its place on the list. */
  ghost predicate Waiting(s: Scheduler, w: nat)
    reads s, s.tasks
  {
    s.Valid() && w in s.ring && w != s.current && w < TASK_MAX && s.tasks[w].state == Ready
  }

  method TryCreate(s: Scheduler, stack: bool, ghost w: nat) returns (made: bool)
    requires Waiting(s, w)
    modifies s, s.tasks
    ensures Waiting(s, w) && IndexOf(s.ring, w) <= old(IndexOf(s.ring, w)) + if made then 1 else 0
  {
    hide IndexOf, Cycle;
    made := false;
    Links(s.tasks[..], s.current, s.ring, 0, 0);
    if s.tasks[s.current].state != Dead {
      var t;
      ghost var slot;
      t, slot := s.Alloc(stack);
      if t != 0 {
        s.InsertReady(t);
        made := true;
      }
    }
  }

  method TryChange(s: Scheduler, hops: nat, to: State, w: nat)
    requires Waiting(s, w)
    modifies s.tasks
    ensures Waiting(s, w)
  {
    hide IndexOf, Cycle, Distinct;
    var t, i := s.current, 0;
    ghost var k: nat := 0;
    ghost var ts := s.tasks[..];
    Links(ts, s.current, s.ring, 0, 0);
    while i < hops
      invariant 0 <= i <= hops && s.tasks[..] == ts && k < |s.ring| && t == s.ring[k] && t < TASK_MAX &&
        s.tasks[t].next == After(s.ring, k)
      modifies {}
    {
      t := s.tasks[t].next;
      k := if k + 1 < |s.ring| then k + 1 else 0;
      Links(ts, s.current, s.ring, k, 0);
      i := i + 1;
    }
    if t != 0 && t != w && Allowed(s.tasks[t].state, to) {
      s.SetState(t, to);
    }
  }

  method SwitchOnce(s: Scheduler, ghost w: nat)
    requires Waiting(s, w)
    modifies s, s.tasks
    ensures s.Valid() && w in s.ring && 0 < old(IndexOf(s.ring, w))
    ensures s.current != w ==> Waiting(s, w) && IndexOf(s.ring, w) < old(IndexOf(s.ring, w))
  {
    hide IndexOf, Cycle, Rotated, Distinct;
    ghost var ring := s.ring;
    ghost var m := IndexOf(ring, w);
    Links(s.tasks[..], s.current, s.ring, m, 0);
    ghost var j := s.Schedule();
    RotatedIndex(ring, j, w);
  }

  ghost function Switches(steps: seq<Step>): nat {
    if steps == [] then 0
    else Switches(steps[..|steps| - 1]) + if steps[|steps| - 1].Switch? then 1 else 0
  }

  ghost function Creations(steps: seq<Step>): nat {
    if steps == [] then 0
    else Creations(steps[..|steps| - 1]) + if steps[|steps| - 1].Create? then 1 else 0
  }

  lemma Longer(steps: seq<Step>, k: nat)
    requires k < |steps|
    ensures Switches(steps[..k + 1]) == Switches(steps[..k]) + if steps[k].Switch? then 1 else 0
    ensures Creations(steps[..k + 1]) == Creations(steps[..k]) + if steps[k].Create? then 1 else 0
  {
    assert steps[..k + 1][..k] == steps[..k];
  }

  lemma {:induction false} Prefix(steps: seq<Step>, k: nat)
    requires k <= |steps|
    ensures Creations(steps[..k]) <= Creations(steps)
    decreases |steps| - k
  {
    if k == |steps| {
      assert steps[..k] == steps;
    } else {
      Longer(steps, k);
      Prefix(steps, k + 1);
    }
  }

  /** Follow a task that nobody stops through a run. Until it is picked, every
      switch brings it nearer to the front; only a creation sets it back, by one
      place. So it is picked within its distance plus the tasks created. */
  method Watch(s: Scheduler, steps: seq<Step>, w: nat) returns (turns: nat, picked: bool)
    requires Waiting(s, w)
    modifies s, s.tasks
    ensures s.Valid() && w in s.ring && (picked <==> s.current == w)
    ensures !picked ==> turns == Switches(steps)
    ensures turns <= old(IndexOf(s.ring, w)) + Creations(steps)
    ensures Switches(steps) >= old(IndexOf(s.ring, w)) + Creations(steps) ==> picked
  {
    hide IndexOf, Cycle;
    turns, picked := 0, false;
    ghost var created := 0;
    var k := 0;
    assert steps[..0] == [];
    while k < |steps| && !picked
      invariant 0 <= k <= |steps| && s.Valid() && w in s.ring
      invariant turns == Switches(steps[..k]) && created <= Creations(steps[..k])
      invariant picked ==> s.current == w && turns <= old(IndexOf(s.ring, w)) + created
      invariant !picked ==> Waiting(s, w) && turns + IndexOf(s.ring, w) <= old(IndexOf(s.ring, w)) + created
      decreases |steps| - k
    {
      Longer(steps, k);
      match steps[k] {
        case Create(stack) =>
          var made := TryCreate(s, stack, w);
          created := created + if made then 1 else 0;
        case Change(hops, to) =>
          TryChange(s, hops, to, w);
        case Switch =>
          SwitchOnce(s, w);
          turns := turns + 1;
          picked := s.current == w;
      }
      k := k + 1;
    }
    Prefix(steps, k);
    if !picked {
      assert steps[..k] == steps;
      NotFront(s.tasks[..], s.current, s.ring, w);
    }
  }

  lemma NotFront(ts: seq<Task>, cur: nat, ring: seq<nat>, w: nat)
    requires Cycle(ts, cur, ring) && w in ring && w != cur
    ensures IndexOf(ring, w) > 0
  {
  }
}
