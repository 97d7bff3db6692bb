/**
 The process table over the task table: fork, exit, wait, signals and descriptors
 as atomic kernel actions, with the pipe reference counts they keep.
 */
module Processes {
  import opened Tasks

  const PROCESS_MAX := 64
  const FD_MAX := 16
  const NSIG := 32
  const SIG_INT := 2
  const SIG_KILL := 9
  const SIG_ALRM := 14
  const SIG_TERM := 15
  const SIG_CONT := 18
  const SIG_STOP := 19

  datatype Fd = Closed | Console | File | ReadEnd(q: nat) | WriteEnd(q: nat)

  predicate IsPipe(f: Fd) { f.ReadEnd? || f.WriteEnd? }

  /** A saved register frame; `rest` stands for the other registers. */
  datatype Frame = Frame(rip: nat, rsp: nat, rdi: nat, user: bool, rest: nat)

  datatype Proc = Proc(
    pid: nat, parent: nat, pgid: nat, task: int, fds: seq<Fd>, exitCode: int,
    alive: bool, reaped: bool, stopReported: bool,
    handlers: seq<nat>, pending: set<nat>, delivering: bool, saved: Frame, alarm: nat)

  function Empty(): Proc {
    Proc(0, 0, 0, -1, seq(FD_MAX, _ => Closed), 0, false, false, false, seq(NSIG, _ => 0), {}, false,
      Frame(0, 0, 0, false, 0), 0)
  }

  datatype Refs = Refs(readers: nat, writers: nat)

  // ----- how many live descriptors name a pipe end -----

  ghost function Of(p: Proc, f: Fd): nat { if p.alive then multiset(p.fds)[f] else 0 }

  ghost function Total(ps: seq<Proc>, f: Fd): nat {
    if ps == [] then 0 else Total(ps[..|ps| - 1], f) + Of(ps[|ps| - 1], f)
  }

  lemma {:induction false} TotalUpdate(ps: seq<Proc>, i: nat, p: Proc, f: Fd)
    requires i < |ps|
    ensures Total(ps[i := p], f) + Of(ps[i], f) == Total(ps, f) + Of(p, f)
  {
    var n := |ps| - 1;
    if i == n {
      assert ps[i := p][..n] == ps[..n];
    } else {
      assert ps[i := p][..n] == ps[..n][i := p];
      TotalUpdate(ps[..n], i, p, f);
    }
  }

  lemma {:induction false} TotalHas(ps: seq<Proc>, i: nat, f: Fd)
    requires i < |ps|
    ensures Total(ps, f) >= Of(ps[i], f)
  {
    if i < |ps| - 1 {
      TotalHas(ps[..|ps| - 1], i, f);
    }
  }

  // ----- the reference counts -----

  ghost predicate PipeOk(pipes: map<nat, Refs>, q: nat, nr: nat, nw: nat) {
    if q in pipes then pipes[q].readers >= nr && pipes[q].writers >= nw else nr == 0 && nw == 0
  }

  ghost predicate PipeExact(pipes: map<nat, Refs>, q: nat, nr: nat, nw: nat) {
    q in pipes ==> pipes[q].readers == nr && pipes[q].writers == nw
  }

  /** Every pipe's counts are exactly the descriptors that live processes hold on it. */
  ghost predicate Exact(ps: seq<Proc>, pipes: map<nat, Refs>) {
    forall q: nat :: PipeExact(pipes, q, Total(ps, ReadEnd(q)), Total(ps, WriteEnd(q)))
  }

  /** A pipe's counts cover the descriptors that live processes hold on it, so a
      live descriptor never names a pipe that was freed. The flag says whether the
      counts are exact. */
  ghost predicate RefsOk(ps: seq<Proc>, pipes: map<nat, Refs>, exact: bool) {
    && (forall q: nat :: PipeOk(pipes, q, Total(ps, ReadEnd(q)), Total(ps, WriteEnd(q))))
    && exact == Exact(ps, pipes)
  }

  lemma ExactIs(ps: seq<Proc>, pipes: map<nat, Refs>, exact: bool)
    requires RefsOk(ps, pipes, exact)
    ensures exact == Exact(ps, pipes)
  {
  }

  function AddRef(pipes: map<nat, Refs>, f: Fd): map<nat, Refs> {
    if !IsPipe(f) || f.q !in pipes then pipes
    else if f.ReadEnd? then pipes[f.q := pipes[f.q].(readers := pipes[f.q].readers + 1)]
    else pipes[f.q := pipes[f.q].(writers := pipes[f.q].writers + 1)]
  }

  function Less(n: nat): nat { if n > 0 then n - 1 else 0 }

  function Freed(pipes: map<nat, Refs>, q: nat): map<nat, Refs> {
    if q in pipes && pipes[q] == Refs(0, 0) then pipes - {q} else pipes
  }

  /** Close one end; the pipe goes when both counts are zero. */
  function DropRef(pipes: map<nat, Refs>, f: Fd): map<nat, Refs> {
    if !IsPipe(f) || f.q !in pipes then pipes
    else if f.ReadEnd? then Freed(pipes[f.q := pipes[f.q].(readers := Less(pipes[f.q].readers))], f.q)
    else Freed(pipes[f.q := pipes[f.q].(writers := Less(pipes[f.q].writers))], f.q)
  }

  ghost function AddRefs(pipes: map<nat, Refs>, fds: seq<Fd>): map<nat, Refs> {
    if fds == [] then pipes else AddRef(AddRefs(pipes, fds[..|fds| - 1]), fds[|fds| - 1])
  }

  ghost function DropRefs(pipes: map<nat, Refs>, fds: seq<Fd>): map<nat, Refs> {
    if fds == [] then pipes else DropRef(DropRefs(pipes, fds[..|fds| - 1]), fds[|fds| - 1])
  }

  lemma OneMore(pipes: map<nat, Refs>, fds: seq<Fd>, k: nat)
    requires k < |fds|
    ensures AddRefs(pipes, fds[..k + 1]) == AddRef(AddRefs(pipes, fds[..k]), fds[k])
    ensures DropRefs(pipes, fds[..k + 1]) == DropRef(DropRefs(pipes, fds[..k]), fds[k])
  {
    assert fds[..k + 1][..k] == fds[..k];
  }

  /** A descriptor of a live process replaced by another one. */
  function WithFd(p: Proc, k: nat, f: Fd): Proc
    requires k < |p.fds|
  {
    p.(fds := p.fds[k := f])
  }

  lemma FdTwice(p: Proc, k: nat, f: Fd, g: Fd)
    requires k < |p.fds|
    ensures var q := WithFd(p, k, f);
      && |q.fds| == |p.fds| && q.alive == p.alive && q.fds[k] == f && (forall j :: 0 <= j < |p.fds| && j != k ==>
        q.fds[j] == p.fds[j])
      && WithFd(q, k, g) == WithFd(p, k, g)
  {
    assert p.fds[k := f][k := g] == p.fds[k := g];
  }

  lemma OfFd(p: Proc, k: nat, f: Fd, g: Fd)
    requires k < |p.fds| && p.alive
    ensures Of(WithFd(p, k, f), g) + (if p.fds[k] == g then 1 else 0) == Of(p, g) + if f == g then 1 else 0
  {
  }

  /** A live process's descriptor names a pipe that exists. */
  lemma HeldPipe(ps: seq<Proc>, pipes: map<nat, Refs>, exact: bool, i: nat, k: nat)
    requires RefsOk(ps, pipes, exact) && i < |ps| && ps[i].alive && k < |ps[i].fds| && IsPipe(ps[i].fds[k])
    ensures ps[i].fds[k].q in pipes && Total(ps, ps[i].fds[k]) > 0
  {
    hide Exact;
    TotalHas(ps, i, ps[i].fds[k]);
    assert ps[i].fds[k] in multiset(ps[i].fds);
  }

  ghost function One(f: Fd, g: Fd): nat { if f == g then 1 else 0 }

  /** How an end of a pipe is counted before and after a step. */
  ghost predicate SameCount(
    pipes: map<nat, Refs>, pipes': map<nat, Refs>, q: nat, nr: nat, nw: nat, nr': nat, nw': nat)
  {
    PipeOk(pipes', q, nr', nw') && (PipeExact(pipes', q, nr', nw') <==> PipeExact(pipes, q, nr, nw))
  }

  lemma DropOne(pipes: map<nat, Refs>, f: Fd, q: nat, nr: nat, nw: nat)
    requires PipeOk(pipes, q, nr, nw) && IsPipe(f) && f.q in pipes
    requires nr >= One(f, ReadEnd(q)) && nw >= One(f, WriteEnd(q))
    ensures SameCount(pipes, DropRef(pipes, f), q, nr, nw, nr - One(f, ReadEnd(q)), nw - One(f, WriteEnd(q)))
  {
  }

  lemma AddOne(pipes: map<nat, Refs>, f: Fd, q: nat, nr: nat, nw: nat)
    requires PipeOk(pipes, q, nr, nw) && (IsPipe(f) ==> f.q in pipes)
    ensures SameCount(pipes, AddRef(pipes, f), q, nr, nw, nr + One(f, ReadEnd(q)), nw + One(f, WriteEnd(q)))
  {
  }

  /** Counting that is the same pipe by pipe keeps the counts covering, and exact or not. */
  lemma SameCounts(ps: seq<Proc>, pipes: map<nat, Refs>, exact: bool, ps': seq<Proc>, pipes': map<nat, Refs>)
    requires RefsOk(ps, pipes, exact)
    requires forall q: nat :: SameCount(pipes, pipes', q, Total(ps, ReadEnd(q)), Total(ps, WriteEnd(q)),
                                        Total(ps', ReadEnd(q)), Total(ps', WriteEnd(q)))
    ensures RefsOk(ps', pipes', exact)
  {
    hide Total, PipeOk, PipeExact;
  }

  lemma Dropped(ps: seq<Proc>, pipes: map<nat, Refs>, exact: bool, i: nat, k: nat)
    requires RefsOk(ps, pipes, exact) && i < |ps| && ps[i].alive && k < |ps[i].fds| && IsPipe(ps[i].fds[k])
    ensures ps[i].fds[k].q in pipes
    ensures RefsOk(ps[i := WithFd(ps[i], k, Closed)], DropRef(pipes, ps[i].fds[k]), exact)
  {
    hide Total, Of, WithFd, PipeOk, PipeExact, DropRef, SameCount, Exact;
    var f, p := ps[i].fds[k], WithFd(ps[i], k, Closed);
    HeldPipe(ps, pipes, exact, i, k);
    forall q: nat
      ensures SameCount(pipes, DropRef(pipes, f), q, Total(ps, ReadEnd(q)), Total(ps, WriteEnd(q)),
        Total(ps[i := p], ReadEnd(q)), Total(ps[i := p], WriteEnd(q)))
    {
      TotalUpdate(ps, i, p, ReadEnd(q));
      TotalUpdate(ps, i, p, WriteEnd(q));
      OfFd(ps[i], k, Closed, ReadEnd(q));
      OfFd(ps[i], k, Closed, WriteEnd(q));
      DropOne(pipes, f, q, Total(ps, ReadEnd(q)), Total(ps, WriteEnd(q)));
    }
    SameCounts(ps, pipes, exact, ps[i := p], DropRef(pipes, f));
  }

  lemma Added(ps: seq<Proc>, pipes: map<nat, Refs>, exact: bool, i: nat, k: nat, f: Fd)
    requires RefsOk(ps, pipes, exact) && i < |ps| && ps[i].alive && k < |ps[i].fds| && !IsPipe(ps[i].fds[k])
    requires IsPipe(f) ==> f.q in pipes
    ensures RefsOk(ps[i := WithFd(ps[i], k, f)], AddRef(pipes, f), exact)
  {
    hide Total, Of, WithFd, PipeOk, PipeExact, AddRef, SameCount, Exact;
    var p := WithFd(ps[i], k, f);
    forall q: nat
      ensures SameCount(pipes, AddRef(pipes, f), q, Total(ps, ReadEnd(q)), Total(ps, WriteEnd(q)),
        Total(ps[i := p], ReadEnd(q)), Total(ps[i := p], WriteEnd(q)))
    {
      TotalUpdate(ps, i, p, ReadEnd(q));
      TotalUpdate(ps, i, p, WriteEnd(q));
      OfFd(ps[i], k, f, ReadEnd(q));
      OfFd(ps[i], k, f, WriteEnd(q));
      AddOne(pipes, f, q, Total(ps, ReadEnd(q)), Total(ps, WriteEnd(q)));
    }
    SameCounts(ps, pipes, exact, ps[i := p], AddRef(pipes, f));
  }

  /** A process that dies keeps its references unless it closed them: the counts
      still cover the living, and are exact afterwards if and only if they were
      before and the process held no pipe end any more. */
  lemma Died(ps: seq<Proc>, pipes: map<nat, Refs>, exact: bool, i: nat, p: Proc)
    requires RefsOk(ps, pipes, exact) && i < |ps| && ps[i].alive && !p.alive
    ensures RefsOk(ps[i := p], pipes, exact && !HoldsEnd(ps[i]))
  {
    hide Total, Exact;
    forall g: Fd ensures Total(ps[i := p], g) + Of(ps[i], g) == Total(ps, g) {
      TotalUpdate(ps, i, p, g);
    }
    DiedExactly(ps, pipes, i, p);
  }

  lemma DiedExactly(ps: seq<Proc>, pipes: map<nat, Refs>, i: nat, p: Proc)
    requires i < |ps| && ps[i].alive && !p.alive && RefsOk(ps, pipes, Exact(ps, pipes))
    requires forall g: Fd :: Total(ps[i := p], g) + Of(ps[i], g) == Total(ps, g)
    ensures Exact(ps[i := p], pipes) <==> Exact(ps, pipes) && !HoldsEnd(ps[i])
  {
    hide Total;
    if Exact(ps[i := p], pipes) {
      forall q: nat ensures PipeExact(pipes, q, Total(ps, ReadEnd(q)), Total(ps, WriteEnd(q))) {
        assert PipeOk(pipes, q, Total(ps, ReadEnd(q)), Total(ps, WriteEnd(q)));
        assert PipeExact(pipes, q, Total(ps[i := p], ReadEnd(q)), Total(ps[i := p], WriteEnd(q)));
      }
      forall k | 0 <= k < |ps[i].fds| ensures !IsPipe(ps[i].fds[k]) {
        var f := ps[i].fds[k];
        if IsPipe(f) {
          assert f in multiset(ps[i].fds);
          HeldPipe(ps, pipes, Exact(ps, pipes), i, k);
        }
      }
    }
    if Exact(ps, pipes) && !HoldsEnd(ps[i]) {
      forall q: nat ensures PipeExact(pipes, q, Total(ps[i := p], ReadEnd(q)), Total(ps[i := p], WriteEnd(q))) {
        assert PipeExact(pipes, q, Total(ps, ReadEnd(q)), Total(ps, WriteEnd(q)));
        assert Of(ps[i], ReadEnd(q)) == 0 && Of(ps[i], WriteEnd(q)) == 0;
      }
    }
  }

  /** Exact counts survive the death of a process if and only if it held no pipe
      end any more. */
  lemma DiedExact(ps: seq<Proc>, pipes: map<nat, Refs>, i: nat, p: Proc)
    requires RefsOk(ps, pipes, true) && i < |ps| && ps[i].alive && !p.alive
    ensures RefsOk(ps[i := p], pipes, true) <==> !HoldsEnd(ps[i])
  {
    hide Total, Exact, HoldsEnd;
    Died(ps, pipes, true, i, p);
  }

  /** Changing what is not about descriptors. */
  lemma SameFds(ps: seq<Proc>, pipes: map<nat, Refs>, exact: bool, i: nat, p: Proc)
    requires RefsOk(ps, pipes, exact) && i < |ps| && p.alive == ps[i].alive && (p.alive ==> p.fds == ps[i].fds)
    ensures RefsOk(ps[i := p], pipes, exact)
  {
    hide Total;
    forall g: Fd ensures Total(ps[i := p], g) == Total(ps, g) {
      TotalUpdate(ps, i, p, g);
    }
  }

  /** A process that starts without pipe ends. */
  lemma Born(ps: seq<Proc>, pipes: map<nat, Refs>, exact: bool, i: nat, p: Proc)
    requires RefsOk(ps, pipes, exact) && i < |ps| && !ps[i].alive
    requires forall k :: 0 <= k < |p.fds| ==> !IsPipe(p.fds[k])
    ensures RefsOk(ps[i := p], pipes, exact)
  {
    hide Total;
    forall g: Fd | IsPipe(g) ensures Total(ps[i := p], g) == Total(ps, g) {
      TotalUpdate(ps, i, p, g);
    }
  }

  // ----- the table -----

  predicate ShapeOk(p: Proc) { |p.fds| == FD_MAX && |p.handlers| == NSIG }

  /** Process ids are handed out once: those in the table differ. */
  ghost predicate PidsOk(ps: seq<Proc>, next: nat) {
    && |ps| == PROCESS_MAX && 0 < next
    && (forall i :: 0 <= i < |ps| ==> ShapeOk(ps[i]) && ps[i].pid < next && (ps[i].alive ==> ps[i].pid != 0))
    && (forall i, j :: 0 <= i < j < |ps| && ps[i].pid != 0 ==> ps[i].pid != ps[j].pid)
  }

  /** A live process that has a task. */
  predicate Tasked(p: Proc) { p.alive && p.task >= 0 }

  /** Live processes have listed, undead tasks of their own. */
  ghost predicate TasksOk(ps: seq<Proc>, ts: seq<Task>, ring: seq<nat>) {
    && (forall i :: 0 <= i < |ps| && Tasked(ps[i]) ==>
        0 < ps[i].task < |ts| && ps[i].task in ring && ts[ps[i].task].state != Dead)
    && (forall i, j :: 0 <= i < j < |ps| && Tasked(ps[i]) && Tasked(ps[j]) ==> ps[i].task != ps[j].task)
  }

  /** The dead stay dead unless their slot is recycled, and a stopped task that is
      not running is only continued by SIG_CONT. */
  ghost predicate TasksKept(ts: seq<Task>, ts': seq<Task>, cur: nat, slot: nat, cont: bool) {
    && |ts'| == |ts|
    && (forall i :: 0 <= i < |ts| && ts[i].state == Dead && i != slot ==> ts'[i].state == Dead)
    && (!cont ==> forall i :: 0 <= i < |ts| && ts[i].state == Stopped && i != cur ==>
      ts'[i].state == Stopped || ts'[i].state == Dead)
  }

  /** Nobody takes the slot or exit code of a dead process that was not waited
      for, nothing but its own return ends a handler or touches its frame, and a
      process that comes to life has a new number. */
  predicate Kept(p: Proc, p': Proc, next: nat) {
    && (p'.alive ==> (p.alive && p'.pid == p.pid) || next <= p'.pid)
    && (!p.alive && p.pid != 0 && !p.reaped ==> !p'.alive && p'.pid == p.pid && p'.exitCode == p.exitCode)
    && (p.alive && p.delivering && p'.alive && p'.pid == p.pid ==> p'.delivering && p'.saved == p.saved)
  }

  ghost predicate ProcsKept(ps: seq<Proc>, ps': seq<Proc>, next: nat) {
    |ps'| == |ps| && forall i :: 0 <= i < |ps| ==> Kept(ps[i], ps'[i], next)
  }

  lemma SlotOk(ps: seq<Proc>, next: nat, i: nat)
    requires PidsOk(ps, next) && i < |ps|
    ensures ShapeOk(ps[i]) && (ps[i].alive ==> ps[i].pid != 0) && |ps| == PROCESS_MAX && ps[i].pid < next
  {
  }

  lemma SamePid(ps: seq<Proc>, next: nat, i: nat, p: Proc)
    requires PidsOk(ps, next) && i < |ps| && ShapeOk(p) && p.pid == ps[i].pid && (p.alive ==> ps[i].alive)
    ensures PidsOk(ps[i := p], next)
  {
  }

  lemma SameTask(ps: seq<Proc>, ts: seq<Task>, ring: seq<nat>, i: nat, p: Proc)
    requires TasksOk(ps, ts, ring) && i < |ps| && (Tasked(p) ==> Tasked(ps[i]) && p.task == ps[i].task)
    ensures TasksOk(ps[i := p], ts, ring)
  {
  }

  lemma OwnTask(ps: seq<Proc>, ts: seq<Task>, ring: seq<nat>, i: nat)
    requires TasksOk(ps, ts, ring) && i < |ps| && Tasked(ps[i])
    ensures 0 < ps[i].task < |ts| && ps[i].task in ring && ts[ps[i].task].state != Dead
  {
  }

  /** The task of a process that died may die: no other live process has it. */
  lemma TaskLeft(ps: seq<Proc>, ts: seq<Task>, ring: seq<nat>, i: nat, p: Proc)
    requires TasksOk(ps, ts, ring) && i < |ps| && Tasked(ps[i]) && !p.alive
    ensures 0 < ps[i].task < |ts|
    ensures TasksOk(ps[i := p], ts[ps[i].task := ts[ps[i].task].(state := Dead)], ring)
  {
    OwnTask(ps, ts, ring, i);
  }

  /** A live process's task may change state, short of dying. */
  lemma TaskMoved(ps: seq<Proc>, ts: seq<Task>, ring: seq<nat>, t: nat, to: State)
    requires TasksOk(ps, ts, ring) && t < |ts| && to != Dead
    ensures TasksOk(ps, ts[t := ts[t].(state := to)], ring)
  {
  }

  // ----- what signals, exits and allocation do to one slot -----

  /** The process still names a pipe end. */
  ghost predicate HoldsEnd(p: Proc) { exists k :: 0 <= k < |p.fds| && IsPipe(p.fds[k]) }

  /** Process i runs now. */
  predicate IsCurrent(ps: seq<Proc>, cur: nat, i: int) { 0 <= i < |ps| && ps[i].alive && ps[i].task == cur }

  /** The number of the process that runs now, 0 if there is none. */
  ghost predicate Caller(ps: seq<Proc>, cur: nat, pid: nat) {
    && (forall i :: IsCurrent(ps, cur, i) ==> pid == ps[i].pid)
    && ((forall i :: !IsCurrent(ps, cur, i)) ==> pid == 0)
  }

  /** Process i has the number, where 0 stands for the one that runs now. */
  predicate Named(ps: seq<Proc>, cur: nat, pid: nat, i: int) {
    if pid == 0 then IsCurrent(ps, cur, i) else 0 <= i < |ps| && ps[i].alive && ps[i].pid == pid
  }

  /** A task table with one state changed; a process may have no task. */
  function Moved(ts: seq<Task>, t: int, to: State): (r: seq<Task>)
    ensures |r| == |ts|
  {
    if 0 <= t < |ts| then ts[t := ts[t].(state := to)] else ts
  }

  function SignalledState(s: State, signo: nat): State {
    if signo == SIG_KILL then Dead
    else if signo == SIG_STOP then Stopped
    else if signo == SIG_CONT then if s == Stopped then Ready else s
    else if s == Blocked then Ready else s
  }

  function SentTo(p: Proc, signo: nat): Proc {
    if signo == SIG_KILL then p.(alive := false)
    else if signo == SIG_STOP || signo == SIG_CONT then p.(stopReported := false)
    else p.(pending := p.pending + {signo})
  }

  function TaskSent(ts: seq<Task>, t: int, signo: nat): (r: seq<Task>)
    ensures |r| == |ts|
  {
    if 0 <= t < |ts| then Moved(ts, t, SignalledState(ts[t].state, signo)) else ts
  }

  /** Exactly the tasks of the processes in `hit` got the signal. */
  ghost predicate Sent(ps: seq<Proc>, ts: seq<Task>, ts': seq<Task>, hit: set<nat>, signo: nat) {
    && |ts'| == |ts|
    && (forall k :: k in hit && k < |ps| && 0 <= ps[k].task < |ts| ==>
          ts'[ps[k].task] == ts[ps[k].task].(state := SignalledState(ts[ps[k].task].state, signo)))
    && (forall t :: 0 <= t < |ts| && (forall k :: k in hit && k < |ps| ==> ps[k].task != t) ==> ts'[t] == ts[t])
  }

  lemma SentStep(ps: seq<Proc>, ts: seq<Task>, ts1: seq<Task>, ring: seq<nat>, hit: set<nat>, i: nat, signo: nat)
    requires Sent(ps, ts, ts1, hit, signo) && TasksOk(ps, ts, ring) && i !in hit && i < |ps| && ps[i].alive
    requires forall k :: k in hit && k < |ps| ==> ps[k].alive
    ensures Sent(ps, ts, TaskSent(ts1, ps[i].task, signo), hit + {i}, signo)
  {
    var ts2, t := TaskSent(ts1, ps[i].task, signo), ps[i].task;
    forall k | k in hit && k < |ps| && ps[k].task >= 0 ensures ps[k].task != t {
      assert Tasked(ps[k]);
    }
    if 0 <= t < |ts| {
      assert ts1[t] == ts[t];
    }
  }

  /** The live processes of a group. */
  ghost function Members(ps: seq<Proc>, pgid: nat, n: nat): set<nat> {
    set k: nat | k < n && k < |ps| && ps[k].alive && ps[k].pgid == pgid
  }

  /** The live processes whose alarm goes off at the next tick. */
  ghost function Ringing(ps: seq<Proc>, n: nat): set<nat> {
    set k: nat | k < n && k < |ps| && ps[k].alive && ps[k].alarm == 1
  }

  function Ticked(p: Proc): Proc {
    if !p.alive || p.alarm == 0 then p
    else if p.alarm == 1 then SentTo(p.(alarm := 0), SIG_ALRM)
    else p.(alarm := p.alarm - 1)
  }

  /** A waited-for slot is cleared before a new process is looked a place for. */
  function Swept(p: Proc): Proc { if !p.alive && p.reaped then Empty() else p }

  predicate Taken(p: Proc) { p.alive || (p.pid != 0 && !p.reaped) }

  ghost predicate HasSlot(ps: seq<Proc>) { exists k :: 0 <= k < |ps| && !Taken(ps[k]) }

  ghost predicate HasTask(ts: seq<Task>) { exists t :: 1 <= t < |ts| && (Unused(ts[t]) || ts[t].state == Dead) }

  lemma SlotFound(ts: seq<Task>, slot: nat)
    requires FirstSlot(ts, slot) && slot < |ts|
    ensures slot != 0 <==> HasTask(ts)
  {
  }

  /** Table ps' is ps swept, with p in slot c, the first one that was free. */
  ghost predicate Placed(ps: seq<Proc>, ps': seq<Proc>, c: int, p: Proc) {
    && |ps'| == |ps| && 0 <= c < |ps| && !Taken(ps[c]) && (forall k :: 0 <= k < c ==> Taken(ps[k]))
    && ps'[c] == p && forall k :: 0 <= k < |ps| && k != c ==> ps'[k] == Swept(ps[k])
  }

  ghost predicate SweptTable(ps: seq<Proc>, ps': seq<Proc>) {
    |ps'| == |ps| && forall k :: 0 <= k < |ps| ==> ps'[k] == Swept(ps[k])
  }

  /** Live processes are as they were and nobody else is alive. */
  ghost predicate SameLiving(ps: seq<Proc>, ps': seq<Proc>) {
    |ps'| == |ps| && forall k :: 0 <= k < |ps| ==> if ps[k].alive then ps'[k] == ps[k] else !ps'[k].alive
  }

  lemma SweptKept(ps: seq<Proc>, ps': seq<Proc>, next: nat)
    requires SweptTable(ps, ps')
    ensures ProcsKept(ps, ps', next) && SameLiving(ps, ps')
  {
  }

  lemma PlacedGet(ps: seq<Proc>, ps': seq<Proc>, c: int, p: Proc)
    requires Placed(ps, ps', c, p)
    ensures |ps'| == |ps| && 0 <= c < |ps| && ps'[c] == p
  {
  }

  lemma PlacedSet(ps: seq<Proc>, ps': seq<Proc>, c: int, p: Proc, q: Proc, next: nat)
    requires Placed(ps, ps', c, p) && (q.alive ==> next <= q.pid)
    ensures |ps'| == |ps| && 0 <= c < |ps| && Placed(ps, ps'[c := q], c, q)
    ensures ProcsKept(ps, ps'[c := q], next) && (!q.alive ==> SameLiving(ps, ps'[c := q]))
  {
  }

  /** The new task at `slot` is ready and every other task is as it was. */
  ghost predicate TaskAdded(ts: seq<Task>, ts': seq<Task>, slot: nat) {
    && |ts'| == |ts| && 0 < slot < |ts| && FirstSlot(ts, slot) && ts'[slot].named && ts'[slot].state == Ready
    && forall t :: 0 <= t < |ts| && t != slot ==> SameButNext(ts'[t], ts[t])
  }

  function NoEnds(fds: seq<Fd>): (r: seq<Fd>)
    ensures |r| == |fds|
  {
    seq(|fds|, k requires 0 <= k < |fds| => if IsPipe(fds[k]) then Closed else fds[k])
  }

  ghost predicate LiveOther(ps: seq<Proc>, pid: nat, i: nat) {
    exists k :: 0 <= k < |ps| && k != i && ps[k].pid == pid && ps[k].alive
  }

  /** Process i exited: it gave its pipe ends back, its dead children count as
      waited for, and so does it when it has no live parent. */
  ghost predicate ExitedTable(ps: seq<Proc>, ps': seq<Proc>, i: nat, code: int) {
    && |ps'| == |ps| && i < |ps|
    && (forall k :: 0 <= k < |ps| && k != i ==>
          ps'[k] == if Orphan(ps[k], ps[i].pid) then ps[k].(reaped := true) else ps[k])
    && ps'[i] == ps[i].(fds := NoEnds(ps[i].fds), alive := false, exitCode := code,
                        reaped := ps[i].reaped || ps[i].parent == ps[i].pid || !LiveOther(ps, ps[i].parent, i))
  }

  predicate IsOpen(p: Proc, fd: int) { 0 <= fd < |p.fds| && p.fds[fd] != Closed }

  /** Closing leaves console descriptors open. */
  function ClosedAt(p: Proc, fd: int): Proc
    requires 0 <= fd < |p.fds|
  {
    if p.fds[fd] == Console then p else WithFd(p, fd, Closed)
  }

  /** The two lowest closed descriptors above the standard ones. */
  predicate LowestPair(fds: seq<Fd>, r: nat, w: nat) {
    && 3 <= r < w < |fds| && fds[r] == Closed && fds[w] == Closed
    && forall j :: 3 <= j < w && j != r ==> fds[j] != Closed
  }

  predicate LowestSignal(pending: set<nat>, s: nat) {
    1 <= s < NSIG && s in pending && forall k :: 1 <= k < s ==> k !in pending
  }

  function Handler(p: Proc, s: nat): nat { if s < |p.handlers| then p.handlers[s] else 0 }

  /** The default action that ends a process. */
  predicate Fatal(p: Proc, s: nat) { Handler(p, s) == 0 && (s == SIG_INT || s == SIG_ALRM || s == SIG_TERM) }

  /** The running process dies of signal s on the way back to user mode. */
  predicate DiesOf(ps: seq<Proc>, cur: nat, regs: Frame, i: int, s: nat) {
    IsCurrent(ps, cur, i) && regs.user && !ps[i].delivering && LowestSignal(ps[i].pending, s) && Fatal(ps[i], s)
  }

  /** The running process dies of a signal while it names a pipe end. */
  ghost predicate Doomed(ps: seq<Proc>, cur: nat, regs: Frame) {
    exists i, s :: DiesOf(ps, cur, regs, i, s) && HoldsEnd(ps[i])
  }

  lemma NotDoomed(ps: seq<Proc>, cur: nat, regs: Frame, i: int)
    requires forall k :: IsCurrent(ps, cur, k) <==> 0 <= k == i
    requires i >= 0 && i < |ps| && regs.user && !ps[i].delivering ==> forall k :: 1 <= k < NSIG ==> k !in ps[i].pending
    ensures !Doomed(ps, cur, regs)
  {
    hide HoldsEnd;
    forall j, n ensures !DiesOf(ps, cur, regs, j, n) {
      if IsCurrent(ps, cur, j) {
        assert j == i;
      }
    }
  }

  lemma DoomedIf(ps: seq<Proc>, cur: nat, regs: Frame, i: int, s: nat)
    requires (forall k :: IsCurrent(ps, cur, k) <==> 0 <= k == i) && 0 <= i < |ps|
    requires regs.user && !ps[i].delivering && LowestSignal(ps[i].pending, s)
    ensures Doomed(ps, cur, regs) <==> Fatal(ps[i], s) && HoldsEnd(ps[i])
  {
    hide HoldsEnd, Fatal;
    assert IsCurrent(ps, cur, i);
    if Fatal(ps[i], s) {
      assert DiesOf(ps, cur, regs, i, s);
    }
    forall j, n | DiesOf(ps, cur, regs, j, n) ensures j == i && n == s {
      assert IsCurrent(ps, cur, j) && LowestSignal(ps[i].pending, n);
    }
  }

  /** A process after signal s was acted on. */
  function Acted(p: Proc, s: nat, regs: Frame, pushed: bool): Proc {
    var q := p.(pending := p.pending - {s});
    if Fatal(p, s) then q.(alive := false, exitCode := 128 + s)
    else if Handler(p, s) <= 1 then q
    else q.(saved := regs, delivering := pushed && regs.rsp >= 8)
  }

  function ActedRegs(p: Proc, s: nat, regs: Frame, pushed: bool): Frame {
    if Handler(p, s) > 1 && pushed && regs.rsp >= 8 then regs.(rsp := regs.rsp - 8, rip := Handler(p, s), rdi := s)
    else regs
  }

  class Kernel {
    const sched: Scheduler
    const procs: array<Proc>
    var nextPid: nat
    var pipes: map<nat, Refs>
    ghost var exact: bool

    ghost predicate Inv()
      reads this, procs, sched, sched.tasks
    {
      && procs.Length == PROCESS_MAX && sched.Valid() && PidsOk(procs[..], nextPid)
      && TasksOk(procs[..], sched.tasks[..], sched.ring) && RefsOk(procs[..], pipes, exact)
    }

    ghost function State(): Snap
      reads this, procs, sched, sched.tasks
    {
      Snap(procs[..], sched.tasks[..], sched.current, nextPid, pipes)
    }

    constructor ()
      ensures Inv() && exact && pipes == map[] && fresh(sched) && fresh(sched.tasks) && fresh(procs)
    {
      sched := new Scheduler();
      procs := new Proc[PROCESS_MAX](_ => Empty());
      nextPid, pipes, exact := 1, map[], true;
      new;
      NobodyThere(procs[..]);
    }

    /** The slot of the process that runs now, or -1. */
    method Current() returns (i: int)
      requires Inv()
      ensures -1 <= i < PROCESS_MAX
      ensures i >= 0 ==> procs[i].alive && procs[i].task == sched.current
      ensures forall k :: IsCurrent(procs[..], sched.current, k) <==> 0 <= k == i
    {
      hide PidsOk, RefsOk, Cycle;
      i := 0;
      while i < PROCESS_MAX
        invariant 0 <= i <= PROCESS_MAX
        invariant forall k :: 0 <= k < i && procs[k].alive ==> procs[k].task != sched.current
      {
        if procs[i].alive && procs[i].task == sched.current {
          return;
        }
        i := i + 1;
      }
      i := -1;
    }

    /** Change a process without touching its life, task or descriptors. */
    method Update(i: nat, p: Proc)
      requires Inv() && i < PROCESS_MAX && ShapeOk(p) && p.pid == procs[i].pid && p.alive == procs[i].alive
      requires p.alive ==> p.task == procs[i].task && p.fds == procs[i].fds
      modifies procs
      ensures Inv() && procs[..] == old(procs[..])[i := p]
    {
      hide PidsOk, TasksOk, RefsOk, Cycle;
      ghost var ps := procs[..];
      SameFds(ps, pipes, exact, i, p);
      SamePid(ps, nextPid, i, p);
      SameTask(ps, sched.tasks[..], sched.ring, i, p);
      procs[i] := p;
      assert procs[..] == ps[i := p];
    }

    // ----- descriptors -----

    /** Close a descriptor of a live process and give its pipe end back. */
    method DropFd(i: nat, k: nat)
      requires Inv() && i < PROCESS_MAX && procs[i].alive && k < FD_MAX
      modifies procs, this`pipes
      ensures Inv() && |old(procs[..])[i].fds| == FD_MAX
      ensures procs[..] == old(procs[..])[i := WithFd(old(procs[..])[i], k, Closed)]
      ensures pipes == DropRef(old(pipes), old(procs[..])[i].fds[k])
    {
      hide PidsOk, TasksOk, RefsOk, Cycle, DropRef;
      ghost var ps := procs[..];
      SlotOk(ps, nextPid, i);
      var p, f := WithFd(procs[i], k, Closed), procs[i].fds[k];
      SamePid(ps, nextPid, i, p);
      SameTask(ps, sched.tasks[..], sched.ring, i, p);
      if IsPipe(f) {
        Dropped(ps, pipes, exact, i, k);
      } else {
        Added(ps, pipes, exact, i, k, Closed);
        NoRef(pipes, Closed);
        NoRef(pipes, f);
      }
      pipes := DropRef(pipes, f);
      procs[i] := p;
      assert procs[..] == ps[i := p];
    }

    /** Set a descriptor that holds no pipe end, counting the new one. */
    method PutFd(i: nat, k: nat, f: Fd)
      requires Inv() && i < PROCESS_MAX && procs[i].alive && k < FD_MAX
      requires |procs[i].fds| == FD_MAX && !IsPipe(procs[i].fds[k]) && (IsPipe(f) ==> f.q in pipes)
      modifies procs, this`pipes
      ensures Inv() && procs[..] == old(procs[..])[i := WithFd(old(procs[..])[i], k, f)]
      ensures pipes == AddRef(old(pipes), f)
    {
      hide PidsOk, TasksOk, RefsOk, Cycle;
      ghost var ps := procs[..];
      SlotOk(ps, nextPid, i);
      var p := WithFd(procs[i], k, f);
      SamePid(ps, nextPid, i, p);
      SameTask(ps, sched.tasks[..], sched.ring, i, p);
      Added(ps, pipes, exact, i, k, f);
      pipes := AddRef(pipes, f);
      procs[i] := p;
      assert procs[..] == ps[i := p];
    }

    /** The first closed descriptor from k on, or FD_MAX. */
    method FirstClosed(i: nat, k: nat) returns (r: nat)
      requires Inv() && i < PROCESS_MAX && k <= FD_MAX && |procs[i].fds| == FD_MAX
      ensures k <= r <= FD_MAX && (r < FD_MAX ==> procs[i].fds[r] == Closed)
      ensures forall j :: k <= j < r ==> procs[i].fds[j] != Closed
    {
      hide PidsOk, TasksOk, RefsOk, Cycle;
      r := k;
      while r < FD_MAX && procs[i].fds[r] != Closed
        invariant k <= r <= FD_MAX
        invariant forall j :: k <= j < r ==> procs[i].fds[j] != Closed
      {
        r := r + 1;
      }
    }

    /** A new pipe on two free descriptors; q is the block the heap returned, or 0. */
    method MakePipe(q: nat) returns (r: int, rfd: nat, wfd: nat)
      requires Inv() && q !in pipes
      modifies procs, this`pipes
      ensures Inv() && ProcsKept(old(procs[..]), procs[..], old(nextPid))
      ensures r == -1 ==> procs[..] == old(procs[..]) && pipes == old(pipes)
      ensures r == -1 || r == 0
      ensures r == 0 <==>
        q != 0 && exists i, a, b ::
          IsCurrent(old(procs[..]), sched.current, i) && LowestPair(old(procs[..])[i].fds, a, b)
      ensures r == 0 ==> exists i ::
        && IsCurrent(old(procs[..]), sched.current, i) && LowestPair(old(procs[..])[i].fds, rfd, wfd)
        && procs[..] == old(procs[..])[i := WithFd(WithFd(old(procs[..])[i], rfd, ReadEnd(q)), wfd, WriteEnd(q))]
      ensures r == 0 ==> pipes == old(pipes)[q := Refs(1, 1)]
    {
      hide PidsOk, TasksOk, RefsOk, Cycle;
      rfd, wfd := 0, 0;
      var i := Current();
      if i == -1 {
        return -1, 0, 0;
      }
      ghost var ps := procs[..];
      SlotOk(ps, nextPid, i);
      rfd := FirstClosed(i, 3);
      if rfd == FD_MAX {
        return -1, 0, 0;
      }
      wfd := FirstClosed(i, rfd + 1);
      if wfd == FD_MAX || q == 0 {
        return -1, 0, 0;
      }
      assert IsCurrent(ps, sched.current, i) && LowestPair(ps[i].fds, rfd, wfd);
      NewPipe(ps, pipes, exact, q);
      pipes := pipes[q := Refs(0, 0)];
      PutFd(i, rfd, ReadEnd(q));
      PutFd(i, wfd, WriteEnd(q));
      r := 0;
    }

    method Dup2(oldfd: int, newfd: int) returns (r: int)
      requires Inv()
      modifies procs, this`pipes
      ensures Inv() && ProcsKept(old(procs[..]), procs[..], old(nextPid))
      ensures r == -1 ==> procs[..] == old(procs[..]) && pipes == old(pipes)
      ensures r == -1 || r == newfd
      ensures r >= 0 <==>
        0 <= newfd < FD_MAX && exists i ::
          IsCurrent(old(procs[..]), sched.current, i) && IsOpen(old(procs[..])[i], oldfd)
      ensures r >= 0 ==> exists i ::
        && IsCurrent(old(procs[..]), sched.current, i) && IsOpen(old(procs[..])[i], oldfd) &&
          newfd < |old(procs[..])[i].fds|
        && procs[..] == old(procs[..])[i := WithFd(old(procs[..])[i], newfd, old(procs[..])[i].fds[oldfd])]
        && pipes == if oldfd == newfd then old(pipes)
                    else AddRef(DropRef(old(pipes), old(procs[..])[i].fds[newfd]), old(procs[..])[i].fds[oldfd])
    {
      hide PidsOk, TasksOk, RefsOk, Cycle, DropRef, AddRef;
      var i := Current();
      if i == -1 {
        return -1;
      }
      ghost var ps := procs[..];
      SlotOk(ps, nextPid, i);
      if oldfd < 0 || oldfd >= FD_MAX || newfd < 0 || newfd >= FD_MAX || procs[i].fds[oldfd] == Closed {
        return -1;
      }
      assert IsCurrent(ps, sched.current, i);
      if oldfd == newfd {
        assert ps[i].fds[newfd := ps[i].fds[oldfd]] == ps[i].fds;
        assert ps[i := ps[i]] == ps;
        return newfd;
      }
      Replace(i, newfd, oldfd);
      r := newfd;
    }

    /** Give a descriptor up, unless it is a console, and make it a copy of another. */
    method Replace(i: nat, newfd: nat, oldfd: nat)
      requires Inv() && i < PROCESS_MAX && procs[i].alive && newfd < FD_MAX && oldfd < FD_MAX && oldfd != newfd
      requires |procs[i].fds| == FD_MAX
      modifies procs, this`pipes
      ensures Inv() && procs[..] == old(procs[..])[i := WithFd(old(procs[..])[i], newfd, old(procs[..])[i].fds[oldfd])]
      ensures pipes == AddRef(DropRef(old(pipes), old(procs[..])[i].fds[newfd]), old(procs[..])[i].fds[oldfd])
    {
      hide PidsOk, TasksOk, RefsOk, Cycle, DropRef, AddRef, WithFd;
      ghost var ps := procs[..];
      var f, g := procs[i].fds[oldfd], procs[i].fds[newfd];
      FdTwice(ps[i], newfd, Closed, f);
      if g == File || IsPipe(g) {
        DropFd(i, newfd);
      } else {
        NoRef(pipes, g);
      }
      if IsPipe(f) {
        HeldPipe(procs[..], pipes, exact, i, oldfd);
      }
      PutFd(i, newfd, f);
    }

    method Close(fd: int) returns (r: int)
      requires Inv()
      modifies procs, this`pipes
      ensures Inv() && ProcsKept(old(procs[..]), procs[..], old(nextPid))
      ensures r == -1 ==> procs[..] == old(procs[..]) && pipes == old(pipes)
      ensures r == -1 || r == 0
      ensures r == 0 <==> exists i :: IsCurrent(old(procs[..]), sched.current, i) && IsOpen(old(procs[..])[i], fd)
      ensures r == 0 ==> exists i ::
        && IsCurrent(old(procs[..]), sched.current, i) && IsOpen(old(procs[..])[i], fd)
        && procs[..] == old(procs[..])[i := ClosedAt(old(procs[..])[i], fd)]
        && pipes == DropRef(old(pipes), old(procs[..])[i].fds[fd])
    {
      hide PidsOk, TasksOk, RefsOk, Cycle, DropRef;
      var i := Current();
      if i == -1 {
        return -1;
      }
      ghost var ps := procs[..];
      SlotOk(ps, nextPid, i);
      if fd < 0 || fd >= FD_MAX || procs[i].fds[fd] == Closed {
        return -1;
      }
      assert IsCurrent(ps, sched.current, i);
      if procs[i].fds[fd] != Console {
        DropFd(i, fd);
      } else {
        NoRef(pipes, Console);
      }
      r := 0;
    }

    // ----- life and death -----

    /** Mark a process dead and its task with it. Pipe ends it still holds are
        never given back. */
    method Bury(i: nat, code: int)
      requires Inv() && i < PROCESS_MAX && procs[i].alive
      modifies procs, sched.tasks, this`exact
      ensures Inv() && procs[..] == old(procs[..])[i := old(procs[..])[i].(alive := false, exitCode := code)]
      ensures sched.tasks[..] == Moved(old(sched.tasks[..]), old(procs[..])[i].task, Dead)
      ensures exact == (old(exact) && !HoldsEnd(old(procs[..])[i]))
    {
      hide PidsOk, TasksOk, RefsOk, Cycle, HoldsEnd;
      ghost var ps, ts := procs[..], sched.tasks[..];
      SlotOk(ps, nextPid, i);
      var p := procs[i].(alive := false, exitCode := code);
      Died(ps, pipes, exact, i, p);
      SamePid(ps, nextPid, i, p);
      SameTask(ps, ts, sched.ring, i, p);
      if p.task >= 0 {
        OwnTask(ps, ts, sched.ring, i);
        TaskLeft(ps, ts, sched.ring, i, p);
      }
      exact := exact && !HoldsEnd(procs[i]);
      procs[i] := p;
      assert procs[..] == ps[i := p];
      if p.task >= 0 {
        sched.SetState(p.task, Dead);
      }
    }

    /** Clear the slots of processes that were waited for. */
    method ClearReaped()
      requires Inv()
      modifies procs
      ensures Inv() && forall i :: 0 <= i < PROCESS_MAX ==> procs[i] == Swept(old(procs[..])[i])
    {
      hide PidsOk, TasksOk, RefsOk, Cycle, Empty;
      EmptyOk();
      var i := 0;
      while i < PROCESS_MAX
        invariant 0 <= i <= PROCESS_MAX && Inv()
        invariant forall k :: i <= k < PROCESS_MAX ==> procs[k] == old(procs[..])[k]
        invariant forall k :: 0 <= k < i ==> procs[k] == Swept(old(procs[..])[k])
      {
        if !procs[i].alive && procs[i].reaped {
          ghost var ps := procs[..];
          Cleared(ps, nextPid, i);
          SameFds(ps, pipes, exact, i, Empty());
          SameTask(ps, sched.tasks[..], sched.ring, i, Empty());
          procs[i] := Empty();
          assert procs[..] == ps[i := Empty()];
        }
        i := i + 1;
      }
    }

    /** The first free slot for a new process, or -1. */
    method ProcessAlloc() returns (i: int)
      requires Inv()
      modifies procs, this`nextPid
      ensures Inv() && -1 <= i < PROCESS_MAX && ProcsKept(old(procs[..]), procs[..], old(nextPid))
      ensures i >= 0 <==> HasSlot(old(procs[..]))
      ensures i >= 0 ==> Placed(old(procs[..]), procs[..], i, Fresh(old(nextPid))) && nextPid == old(nextPid) + 1
      ensures i == -1 ==> nextPid == old(nextPid) && SweptTable(old(procs[..]), procs[..])
    {
      hide PidsOk, TasksOk, RefsOk, Cycle, Empty, Fresh;
      EmptyOk();
      FreshOk(nextPid);
      ClearReaped();
      i := 0;
      while i < PROCESS_MAX && (procs[i].alive || procs[i].pid != 0)
        invariant 0 <= i <= PROCESS_MAX && forall k :: 0 <= k < i ==> Taken(old(procs[..])[k])
        modifies {}
      {
        i := i + 1;
      }
      if i == PROCESS_MAX {
        return -1;
      }
      ghost var ps := procs[..];
      Numbered(ps, nextPid, i, Fresh(nextPid));
      Born(ps, pipes, exact, i, Fresh(nextPid));
      SameTask(ps, sched.tasks[..], sched.ring, i, Fresh(nextPid));
      procs[i] := Fresh(nextPid);
      assert procs[..] == ps[i := Fresh(nextPid)];
      nextPid := nextPid + 1;
    }

    /** Give a new process the descriptors of another, counting the pipe ends. */
    method CopyFds(i: nat, c: nat)
      requires Inv() && i < PROCESS_MAX && c < PROCESS_MAX && i != c && procs[i].alive && procs[c].alive
      requires |procs[i].fds| == FD_MAX && |procs[c].fds| == FD_MAX && forall k :: 0 <= k < FD_MAX ==>
        !IsPipe(procs[c].fds[k])
      modifies procs, this`pipes
      ensures Inv() && procs[..] == old(procs[..])[c := old(procs[..])[c].(fds := old(procs[..])[i].fds)]
      ensures pipes == AddRefs(old(pipes), old(procs[..])[i].fds)
    {
      hide PidsOk, TasksOk, RefsOk, Cycle, AddRef, AddRefs;
      ghost var ps, ps0 := procs[..], pipes;
      NoRefs(pipes, ps[i].fds);
      var k := 0;
      while k < FD_MAX
        invariant 0 <= k <= FD_MAX && Inv()
        invariant forall j :: 0 <= j < PROCESS_MAX && j != c ==> procs[j] == ps[j]
        invariant procs[c] == ps[c].(fds := procs[c].fds) && |procs[c].fds| == FD_MAX
        invariant forall m :: 0 <= m < FD_MAX ==> procs[c].fds[m] == if m < k then ps[i].fds[m] else ps[c].fds[m]
        invariant pipes == AddRefs(ps0, ps[i].fds[..k])
      {
        OneMore(ps0, ps[i].fds, k);
        var f := procs[i].fds[k];
        if IsPipe(f) {
          HeldPipe(procs[..], pipes, exact, i, k);
        }
        PutFd(c, k, f);
        k := k + 1;
      }
      assert procs[c].fds == ps[i].fds;
      assert ps[i].fds[..FD_MAX] == ps[i].fds;
    }

    /** Fork the current process. Running out of frames for the copy of its
        address space, or of tasks or stacks, kills the half-made child and leaves
        its pipe references counted. */
    method Fork(spaceOk: bool, stack: bool) returns (pid: int, ghost slot: nat)
      requires Inv()
      modifies this, procs, sched, sched.tasks
      ensures Inv() && ProcsKept(old(procs[..]), procs[..], old(nextPid)) && slot < TASK_MAX
      ensures TasksKept(old(sched.tasks[..]), sched.tasks[..], old(sched.current), slot, false)
      ensures sched.current == old(sched.current)
      ensures nextPid >= old(nextPid)
      ensures pid >= 0 <==> CanFork(old(State()), spaceOk, stack)
      ensures pid >= 0 ==>
        pid == old(nextPid) && exact == old(exact) && TaskAdded(old(sched.tasks[..]), sched.tasks[..], slot)
      ensures pid >= 0 ==> exists i, c ::
        && IsCurrent(old(procs[..]), sched.current, i)
        && Placed(old(procs[..]), procs[..], c, ChildOf(old(procs[..])[i], pid, slot))
        && pipes == AddRefs(old(pipes), old(procs[..])[i].fds)
      ensures pid < 0 ==> SameLiving(old(procs[..]), procs[..])
      ensures slot == 0 || FirstSlot(old(sched.tasks[..]), slot)
      ensures forall i :: IsCurrent(old(procs[..]), sched.current, i) ==>
        && pipes == (if HasSlot(old(procs[..])) then AddRefs(old(pipes), old(procs[..])[i].fds) else old(pipes))
        && exact == (old(exact) && (pid >= 0 || !HasSlot(old(procs[..])) || !HoldsEnd(old(procs[..])[i])))
      ensures (forall i :: !IsCurrent(old(procs[..]), sched.current, i)) ==> pipes == old(pipes) && exact == old(exact)
    {
      hide HoldsEnd, PidsOk, TasksOk, RefsOk, Cycle, ChildOf, TasksKept, FirstSlot, Placed, Kept, HasTask, AddRefs;
      slot := 0;
      ghost var ps, ts := procs[..], sched.tasks[..];
      TasksKeptSelf(ts, sched.current, false);
      KeptSelf(ps, nextPid);
      var i := Current();
      if i == -1 {
        return -1, 0;
      }
      assert IsCurrent(ps, sched.current, i);
      ghost var pid0 := nextPid;
      ChildOk(ps[i], pid0);
      var c := MakeChild(i);
      if c == -1 {
        SweptKept(ps, procs[..], pid0);
        return -1, 0;
      }
      PlacedGet(ps, procs[..], c, ChildOf(ps[i], pid0, -1));
      OwnTask(procs[..], sched.tasks[..], sched.ring, i);
      var t;
      t, slot := Launch(c, spaceOk, stack, ps, pid0);
      ChildTask(ps[i], pid0, t);
      ChildEnds(ps[i], pid0);
      pid := if t == 0 then -1 else procs[c].pid;
    }

    /** Give a new process a task, or give the process up. */
    method Launch(c: nat, spaceOk: bool, stack: bool, ghost ps: seq<Proc>, ghost pid0: nat)
      returns (t: nat, ghost slot: nat)
      requires Inv() && c < PROCESS_MAX && procs[c].alive && procs[c].task == -1 && pid0 <= procs[c].pid
      requires sched.current < TASK_MAX && sched.tasks[sched.current].state != Dead &&
        Placed(ps, procs[..], c, procs[c])
      modifies procs, sched, sched.tasks, this`exact
      ensures Inv() && ProcsKept(ps, procs[..], pid0) && slot < TASK_MAX && sched.current == old(sched.current)
      ensures TasksKept(old(sched.tasks[..]), sched.tasks[..], sched.current, slot, false)
      ensures t != 0 <==> spaceOk && stack && HasTask(old(sched.tasks[..]))
      ensures t != 0 ==>
        && Placed(ps, procs[..], c, old(procs[..])[c].(task := t)) && procs[c].pid == old(procs[..])[c].pid
        && t == slot && TaskAdded(old(sched.tasks[..]), sched.tasks[..], slot) && exact == old(exact)
      ensures t == 0 ==>
        && SameLiving(ps, procs[..]) && exact == (old(exact) && !HoldsEnd(old(procs[..])[c]))
      ensures slot == 0 || FirstSlot(old(sched.tasks[..]), slot)
    {
      hide PidsOk, TasksOk, RefsOk, Cycle, TasksKept, FirstSlot, Placed, Kept, HasTask, SameLiving, HoldsEnd;
      ghost var ts, p := sched.tasks[..], procs[c];
      TasksKeptSelf(ts, sched.current, false);
      PlacedSet(ps, procs[..], c, p, p.(alive := false), pid0);
      if !spaceOk {
        Abandon(c);
        return 0, 0;
      }
      t, slot := GetTask(stack);
      SlotFound(ts, slot);
      if t == 0 {
        Abandon(c);
        return 0, slot;
      }
      ghost var ts1 := sched.tasks[..];
      PlacedSet(ps, procs[..], c, p, p.(task := t), pid0);
      Attach(c, t);
      TasksKeptOn(ts, ts1, sched.tasks[..], sched.current, slot);
    }

    /** A slot for a child with its parent's group and descriptors, without a task. */
    method MakeChild(i: nat) returns (c: int)
      requires Inv() && i < PROCESS_MAX && procs[i].alive
      modifies procs, this`nextPid, this`pipes
      ensures Inv() && -1 <= c < PROCESS_MAX
      ensures c >= 0 <==> HasSlot(old(procs[..]))
      ensures c == -1 ==> nextPid == old(nextPid) && SweptTable(old(procs[..]), procs[..])
      ensures c >= 0 ==> Placed(old(procs[..]), procs[..], c, ChildOf(old(procs[..])[i], old(nextPid), -1))
      ensures c >= 0 ==> nextPid == old(nextPid) + 1 && c != i && procs[i] == old(procs[..])[i]
      ensures pipes == if c >= 0 then AddRefs(old(pipes), old(procs[..])[i].fds) else old(pipes)
    {
      hide PidsOk, TasksOk, RefsOk, Cycle, Fresh, AddRefs;
      FreshOk(nextPid);
      c := ProcessAlloc();
      if c >= 0 {
        SlotOk(procs[..], nextPid, i);
        Update(c, procs[c].(parent := procs[i].pid, pgid := procs[i].pgid));
        CopyFds(i, c);
      }
    }

    /** Give up a process that never got a task. */
    method Abandon(c: nat)
      requires Inv() && c < PROCESS_MAX && procs[c].alive && procs[c].task == -1
      modifies procs, sched.tasks, this`exact
      ensures Inv() && procs[..] == old(procs[..])[c := old(procs[..])[c].(alive := false)]
      ensures sched.tasks[..] == old(sched.tasks[..]) && exact == (old(exact) && !HoldsEnd(old(procs[..])[c]))
    {
      hide PidsOk, TasksOk, RefsOk, Cycle;
      Bury(c, procs[c].exitCode);
    }

    /** A free task slot, for a caller whose own task is not dead. */
    method GetTask(stack: bool) returns (t: nat, ghost slot: nat)
      requires Inv() && sched.current < TASK_MAX && sched.tasks[sched.current].state != Dead
      modifies sched, sched.tasks
      ensures Inv() && slot < TASK_MAX && sched.current == old(sched.current) && t == if stack then slot else 0
      ensures TasksKept(old(sched.tasks[..]), sched.tasks[..], sched.current, slot, false)
      ensures FirstSlot(old(sched.tasks[..]), slot)
      ensures slot != 0 ==> slot !in sched.ring && sched.tasks[slot] == Task(true, Ready, -1)
      ensures forall k :: 0 <= k < TASK_MAX && k != slot ==> SameButNext(sched.tasks[k], old(sched.tasks[..])[k])
    {
      hide PidsOk, TasksOk, RefsOk, Cycle;
      ghost var ts, ring := sched.tasks[..], sched.ring;
      t, slot := sched.Alloc(stack);
      Relisted(procs[..], ts, ring, sched.tasks[..], sched.ring);
    }

    /** Start a new process from an image that was, or was not, set up. */
    method Spawn(spaceOk: bool, stack: bool) returns (pid: int, ghost slot: nat)
      requires Inv() && sched.current < TASK_MAX && sched.tasks[sched.current].state != Dead
      modifies this, procs, sched, sched.tasks
      ensures Inv() && ProcsKept(old(procs[..]), procs[..], old(nextPid)) && slot < TASK_MAX && exact == old(exact)
      ensures TasksKept(old(sched.tasks[..]), sched.tasks[..], old(sched.current), slot, false)
      ensures sched.current == old(sched.current) && pipes == old(pipes)
      ensures nextPid >= old(nextPid)
      ensures pid >= 0 <==> spaceOk && stack && HasSlot(old(procs[..])) && HasTask(old(sched.tasks[..]))
      ensures pid >= 0 ==> pid == old(nextPid) && TaskAdded(old(sched.tasks[..]), sched.tasks[..], slot)
      ensures pid >= 0 ==> exists c, parent: nat ::
        && Caller(old(procs[..]), sched.current, parent)
        && Placed(old(procs[..]), procs[..], c, Fresh(pid).(parent := parent, task := slot))
      ensures pid < 0 ==> SameLiving(old(procs[..]), procs[..])
      ensures slot == 0 || FirstSlot(old(sched.tasks[..]), slot)
    {
      hide HoldsEnd, PidsOk, TasksOk, RefsOk, Cycle, Fresh, TasksKept, FirstSlot, Placed, Kept, HasTask, HasSlot,
        SameLiving, TaskAdded;
      slot := 0;
      ghost var ps, pid0 := procs[..], nextPid;
      TasksKeptSelf(sched.tasks[..], sched.current, false);
      FreshOk(pid0);
      var parent, c := MakeProcess();
      if c == -1 {
        SweptKept(ps, procs[..], pid0);
        return -1, 0;
      }
      var t;
      t, slot := Launch(c, spaceOk, stack, ps, pid0);
      pid := if t == 0 then -1 else procs[c].pid;
    }

    /** A slot for a process that the current one, if any, is the parent of. */
    method MakeProcess() returns (parent: nat, c: int)
      requires Inv()
      modifies procs, this`nextPid
      ensures Inv() && -1 <= c < PROCESS_MAX && Caller(old(procs[..]), sched.current, parent)
      ensures c >= 0 <==> HasSlot(old(procs[..]))
      ensures c == -1 ==> nextPid == old(nextPid) && SweptTable(old(procs[..]), procs[..])
      ensures c >= 0 ==> nextPid == old(nextPid) + 1 && procs[c] == Fresh(old(nextPid)).(parent := parent)
      ensures c >= 0 ==> Placed(old(procs[..]), procs[..], c, procs[c])
    {
      hide PidsOk, TasksOk, RefsOk, Cycle, Fresh, Placed, Kept, HasSlot;
      ghost var ps, pid0 := procs[..], nextPid;
      FreshOk(pid0);
      var i := Current();
      assert i >= 0 ==> IsCurrent(ps, sched.current, i);
      parent := if i == -1 then 0 else procs[i].pid;
      c := ProcessAlloc();
      if c >= 0 {
        PlacedGet(ps, procs[..], c, Fresh(pid0));
        PlacedSet(ps, procs[..], c, Fresh(pid0), Fresh(pid0).(parent := parent), pid0);
        Update(c, procs[c].(parent := parent));
      }
    }

    method Attach(c: nat, t: nat)
      requires Inv() && c < PROCESS_MAX && procs[c].alive && procs[c].task == -1
      requires 0 < t < TASK_MAX && t !in sched.ring && sched.tasks[t] == Task(true, Ready, -1)
      modifies procs, sched, sched.tasks
      ensures Inv() && procs[..] == old(procs[..])[c := old(procs[..])[c].(task := t)] &&
        sched.current == old(sched.current)
      ensures forall k :: 0 <= k < TASK_MAX ==> SameButNext(sched.tasks[k], old(sched.tasks[..])[k])
    {
      hide PidsOk, TasksOk, RefsOk, Cycle;
      ghost var ps, ts, ring := procs[..], sched.tasks[..], sched.ring;
      var p := procs[c].(task := t);
      SlotOk(ps, nextPid, c);
      SamePid(ps, nextPid, c, p);
      SameFds(ps, pipes, exact, c, p);
      procs[c] := p;
      assert procs[..] == ps[c := p];
      sched.InsertReady(t);
      assert sched.ring[1] == t;
      Relisted(ps, ts, ring, sched.tasks[..], sched.ring);
      NotTaken(ps, ts, ring, t);
      TaskGiven(ps, sched.tasks[..], sched.ring, c, p);
    }

    /** Close every pipe end of a live process. */
    method CloseAll(i: nat)
      requires Inv() && i < PROCESS_MAX && procs[i].alive
      modifies procs, this`pipes
      ensures Inv() && procs[..] == old(procs[..])[i := old(procs[..])[i].(fds := NoEnds(old(procs[..])[i].fds))]
      ensures pipes == DropRefs(old(pipes), old(procs[..])[i].fds) && |old(procs[..])[i].fds| == FD_MAX
    {
      hide PidsOk, TasksOk, RefsOk, Cycle, DropRef, DropRefs;
      ghost var ps, ps0 := procs[..], pipes;
      SlotOk(ps, nextPid, i);
      NoRefs(pipes, ps[i].fds);
      var k := 0;
      while k < FD_MAX
        invariant 0 <= k <= FD_MAX && Inv() && |procs[i].fds| == FD_MAX
        invariant forall j :: 0 <= j < PROCESS_MAX && j != i ==> procs[j] == ps[j]
        invariant procs[i] == ps[i].(fds := procs[i].fds)
        invariant forall m :: 0 <= m < FD_MAX ==>
          procs[i].fds[m] == if m < k && IsPipe(ps[i].fds[m]) then Closed else ps[i].fds[m]
        invariant pipes == DropRefs(ps0, ps[i].fds[..k])
      {
        OneMore(ps0, ps[i].fds, k);
        if IsPipe(procs[i].fds[k]) {
          DropFd(i, k);
        } else {
          NoRef(pipes, procs[i].fds[k]);
        }
        k := k + 1;
      }
      assert procs[i].fds == NoEnds(ps[i].fds);
      assert ps[i].fds[..FD_MAX] == ps[i].fds;
    }

    /** Mark the dead children of a process as waited for. */
    method ReapChildren(pid: nat)
      requires Inv()
      modifies procs
      ensures Inv() && Reaped(old(procs[..]), procs[..], pid)
    {
      hide PidsOk, TasksOk, RefsOk, Cycle;
      ghost var ps := procs[..];
      var k := 0;
      while k < PROCESS_MAX
        invariant 0 <= k <= PROCESS_MAX && Inv()
        invariant forall j :: 0 <= j < PROCESS_MAX ==>
          procs[j] == if j < k && Orphan(ps[j], pid) then ps[j].(reaped := true) else ps[j]
      {
        if Orphan(procs[k], pid) {
          SlotOk(procs[..], nextPid, k);
          Update(k, procs[k].(reaped := true));
        }
        k := k + 1;
      }
    }

    /** Is some live process numbered pid? */
    method IsAlive(pid: nat) returns (b: bool)
      requires Inv()
      ensures b <==> exists k :: 0 <= k < PROCESS_MAX && procs[k].pid == pid && procs[k].alive
    {
      hide PidsOk, TasksOk, RefsOk, Cycle;
      var k := 0;
      while k < PROCESS_MAX
        invariant 0 <= k <= PROCESS_MAX && forall j :: 0 <= j < k ==> !(procs[j].pid == pid && procs[j].alive)
      {
        if procs[k].pid == pid && procs[k].alive {
          return true;
        }
        k := k + 1;
      }
      return false;
    }

    /** End the current process. Its pipe ends are given back, so the counts stay
        exact if they were. */
    method Exit(code: int)
      requires Inv()
      modifies procs, sched.tasks, this`pipes, this`exact
      ensures Inv() && ProcsKept(old(procs[..]), procs[..], old(nextPid)) && exact == old(exact)
      ensures TasksKept(old(sched.tasks[..]), sched.tasks[..], sched.current, 0, false)
      ensures forall i :: IsCurrent(old(procs[..]), sched.current, i) ==>
        && ExitedTable(old(procs[..]), procs[..], i, code)
        && pipes == DropRefs(old(pipes), old(procs[..])[i].fds)
        && sched.tasks[..] == Moved(old(sched.tasks[..]), sched.current, Dead)
      ensures (forall i :: !IsCurrent(old(procs[..]), sched.current, i)) ==>
        procs[..] == old(procs[..]) && pipes == old(pipes) && sched.tasks[..] == old(sched.tasks[..])
    {
      hide PidsOk, TasksOk, RefsOk, Cycle, DropRefs, TasksKept, Kept, NoEnds, ExitedTable, Orphan, LiveOther, Moved,
        HoldsEnd;
      KeptSelf(procs[..], nextPid);
      ghost var ps, ts := procs[..], sched.tasks[..];
      TasksKeptSelf(ts, sched.current, false);
      BuriedKept(ts, sched.current, sched.current);
      var i := Current();
      if i == -1 {
        return;
      }
      assert IsCurrent(ps, sched.current, i);
      CloseAll(i);
      NoneLeft(ps[i].fds);
      Bury(i, code);
      ghost var ps2 := procs[..];
      ReapChildren(procs[i].pid);
      ghost var ps3 := procs[..];
      ReapedAlike(ps2, ps3, ps[i].pid);
      var parent := IsAlive(procs[i].parent);
      if !parent {
        SlotOk(procs[..], nextPid, i);
        Update(i, procs[i].(reaped := true));
      }
      ExitedIs(ps, ps2, ps3, procs[..], i, code, parent);
      ExitedKept(ps, procs[..], i, code, nextPid);
    }

    /** A fault in user mode kills the current process without closing anything. */
    method Fault(signo: nat)
      requires Inv()
      modifies procs, sched.tasks, this`exact
      ensures Inv() && ProcsKept(old(procs[..]), procs[..], old(nextPid))
      ensures TasksKept(old(sched.tasks[..]), sched.tasks[..], sched.current, 0, false)
      ensures forall i :: IsCurrent(old(procs[..]), sched.current, i) ==>
        && procs[..] == old(procs[..])[i := old(procs[..])[i].(alive := false, exitCode := 128 + signo)]
        && sched.tasks[..] == Moved(old(sched.tasks[..]), sched.current, Dead)
      ensures (forall i :: !IsCurrent(old(procs[..]), sched.current, i)) ==>
        procs[..] == old(procs[..]) && sched.tasks[..] == old(sched.tasks[..])
      ensures exact == (old(exact) && !exists i ::
        IsCurrent(old(procs[..]), sched.current, i) && HoldsEnd(old(procs[..])[i]))
    {
      hide PidsOk, TasksOk, RefsOk, Cycle, HoldsEnd;
      var i := Current();
      if i >= 0 {
        assert IsCurrent(procs[..], sched.current, i);
        Bury(i, 128 + signo);
      }
    }

    /** One round of waiting for a process. */
    method WaitRound(pid: nat) returns (r: Waited)
      requires Inv()
      modifies procs
      ensures Inv() && ProcsKept(old(procs[..]), procs[..], old(nextPid))
      ensures r.NoChild? <==> forall k :: 0 <= k < PROCESS_MAX ==> old(procs[..])[k].pid != pid
      ensures r.NoChild? ==> procs[..] == old(procs[..])
      ensures r.Exited? ==> exists k ::
        && 0 <= k < PROCESS_MAX && DeadWith(old(procs[..])[k], pid, r.code)
        && procs[..] == old(procs[..])[k := old(procs[..])[k].(reaped := true)]
      ensures r.StopSeen? ==> exists k ::
        && 0 <= k < PROCESS_MAX && old(procs[..])[k].pid == pid && NewStop(old(procs[..])[k], sched.tasks[..])
        && procs[..] == old(procs[..])[k := old(procs[..])[k].(stopReported := true)]
      ensures r.Pending? ==>
        && procs[..] == old(procs[..])
        && exists k ::
          0 <= k < PROCESS_MAX && procs[k].alive && procs[k].pid == pid && !NewStop(procs[k], sched.tasks[..])
    {
      hide PidsOk, TasksOk, RefsOk, Cycle;
      ghost var ps := procs[..];
      var k := 0;
      while k < PROCESS_MAX && procs[k].pid != pid
        invariant 0 <= k <= PROCESS_MAX && forall j :: 0 <= j < k ==> procs[j].pid != pid
        modifies {}
      {
        k := k + 1;
      }
      if k == PROCESS_MAX {
        return NoChild;
      }
      SlotOk(procs[..], nextPid, k);
      if !procs[k].alive {
        r := Exited(procs[k].exitCode);
        Update(k, procs[k].(reaped := true));
        return;
      }
      if procs[k].task >= 0 && !procs[k].stopReported {
        OwnTask(procs[..], sched.tasks[..], sched.ring, k);
        if sched.tasks[procs[k].task].state == Stopped {
          Update(k, procs[k].(stopReported := true));
          return StopSeen;
        }
      }
      return Pending;
    }

    // ----- signals -----

    /** Change the state of a live process's task. */
    method MoveTask(i: nat, to: State)
      requires Inv() && i < PROCESS_MAX && Tasked(procs[i]) && to != Dead
      modifies sched.tasks
      ensures Inv() && 0 < procs[i].task < TASK_MAX
      ensures sched.tasks[..] ==
        old(sched.tasks[..])[procs[i].task := old(sched.tasks[..])[procs[i].task].(state := to)]
      ensures old(sched.tasks[..])[procs[i].task].state != Dead
    {
      hide PidsOk, TasksOk, RefsOk, Cycle;
      ghost var ts := sched.tasks[..];
      OwnTask(procs[..], ts, sched.ring, i);
      TaskMoved(procs[..], ts, sched.ring, procs[i].task, to);
      sched.SetState(procs[i].task, to);
    }

    /** Send a signal to one live process. */
    method SignalOne(i: nat, signo: nat)
      requires Inv() && i < PROCESS_MAX && procs[i].alive && 0 < signo < NSIG
      modifies procs, sched.tasks, this`exact
      ensures Inv() && procs[..] == old(procs[..])[i := SentTo(old(procs[..])[i], signo)]
      ensures sched.tasks[..] == TaskSent(old(sched.tasks[..]), old(procs[..])[i].task, signo)
      ensures TasksKept(old(sched.tasks[..]), sched.tasks[..], sched.current, 0, signo == SIG_CONT)
      ensures exact == (old(exact) && !(signo == SIG_KILL && HoldsEnd(old(procs[..])[i])))
    {
      hide PidsOk, TasksOk, RefsOk, Cycle, HoldsEnd, TasksKept;
      SlotOk(procs[..], nextPid, i);
      if procs[i].task >= 0 {
        OwnTask(procs[..], sched.tasks[..], sched.ring, i);
      }
      SentTasksKept(sched.tasks[..], procs[i].task, signo, sched.current);
      if signo == SIG_KILL {
        Bury(i, procs[i].exitCode);
        return;
      }
      var t := procs[i].task;
      if signo == SIG_STOP {
        if t >= 0 {
          MoveTask(i, Stopped);
        }
        Update(i, procs[i].(stopReported := false));
        return;
      }
      if signo == SIG_CONT {
        if t >= 0 && sched.tasks[t].state == Stopped {
          MoveTask(i, Ready);
        }
        Update(i, procs[i].(stopReported := false));
        return;
      }
      if t >= 0 && sched.tasks[t].state == Blocked {
        MoveTask(i, Ready);
      }
      Update(i, procs[i].(pending := procs[i].pending + {signo}));
    }

    /** Send a signal to every live process of a group. */
    method SignalGroup(pgid: nat, signo: nat)
      requires Inv() && 0 < signo < NSIG
      modifies procs, sched.tasks, this`exact
      ensures Inv() && ProcsKept(old(procs[..]), procs[..], old(nextPid))
      ensures TasksKept(old(sched.tasks[..]), sched.tasks[..], sched.current, 0, signo == SIG_CONT)
      ensures exact == (old(exact) && !(signo == SIG_KILL && KillLeaks(old(procs[..]), -(pgid as int))))
      ensures pgid == 0 ==> procs[..] == old(procs[..]) && sched.tasks[..] == old(sched.tasks[..])
      ensures pgid != 0 ==> GroupSent(old(procs[..]), procs[..], old(sched.tasks[..]), sched.tasks[..], pgid, signo)
    {
      hide PidsOk, TasksOk, RefsOk, Cycle, TasksKept, Kept, TaskSent, SentTo, Sent, Members, HoldsEnd, KillLeaks;
      ghost var ps, ts := procs[..], sched.tasks[..];
      TasksKeptSelf(ts, sched.current, signo == SIG_CONT);
      KeptSelf(ps, nextPid);
      NoLeak(ps, -(pgid as int));
      if pgid == 0 {
        NobodyZero(ps, nextPid);
        return;
      }
      NobodySent(ps, ts, pgid, signo);
      var i := 0;
      while i < PROCESS_MAX
        invariant 0 <= i <= PROCESS_MAX && Inv()
        invariant TasksKept(ts, sched.tasks[..], sched.current, 0, signo == SIG_CONT)
        invariant forall k :: i <= k < PROCESS_MAX ==> procs[k] == ps[k]
        invariant forall k :: 0 <= k < i ==>
          procs[k] == if ps[k].alive && ps[k].pgid == pgid then SentTo(ps[k], signo) else ps[k]
        invariant Sent(ps, ts, sched.tasks[..], Members(ps, pgid, i), signo)
        invariant exact == (old(exact) && !(signo == SIG_KILL && KillLeaks(ps[..i], -(pgid as int))))
      {
        OneMember(ps, pgid, i);
        OneLeak(ps, -(pgid as int), i);
        if procs[i].alive && procs[i].pgid == pgid {
          ghost var ts1 := sched.tasks[..];
          SentStep(ps, ts, ts1, sched.ring, Members(ps, pgid, i), i, signo);
          SignalOne(i, signo);
          TasksKeptTrans(ts, ts1, sched.tasks[..], sched.current, signo == SIG_CONT);
        }
        i := i + 1;
      }
      forall k | 0 <= k < PROCESS_MAX ensures Kept(ps[k], procs[k], nextPid) {
        SentKept(ps[k], signo, nextPid);
      }
    }

    method Kill(pid: int, signo: int) returns (r: int)
      requires Inv()
      modifies procs, sched.tasks, this`exact
      ensures Inv() && ProcsKept(old(procs[..]), procs[..], old(nextPid))
      ensures TasksKept(old(sched.tasks[..]), sched.tasks[..], sched.current, 0, signo == SIG_CONT)
      ensures r == -1 ==> procs[..] == old(procs[..]) && sched.tasks[..] == old(sched.tasks[..])
      ensures exact == (old(exact) && !(signo == SIG_KILL && KillLeaks(old(procs[..]), pid)))
      ensures r == -1 || r == 0
      ensures r == 0 <==>
        0 < signo < NSIG &&
        (pid < 0 || exists k :: 0 <= k < PROCESS_MAX && old(procs[..])[k].alive && old(procs[..])[k].pid == pid)
      ensures r == 0 && pid < 0 ==>
        GroupSent(old(procs[..]), procs[..], old(sched.tasks[..]), sched.tasks[..], -pid, signo)
      ensures r == 0 && pid >= 0 ==> exists k ::
        && 0 <= k < PROCESS_MAX && old(procs[..])[k].alive && old(procs[..])[k].pid == pid
        && procs[..] == old(procs[..])[k := SentTo(old(procs[..])[k], signo)]
        && sched.tasks[..] == TaskSent(old(sched.tasks[..]), old(procs[..])[k].task, signo)
    {
      hide PidsOk, TasksOk, RefsOk, Cycle, TasksKept, Kept, SentTo, TaskSent, GroupSent, HoldsEnd;
      ghost var ps, ts := procs[..], sched.tasks[..];
      TasksKeptSelf(ts, sched.current, signo == SIG_CONT);
      KeptSelf(ps, nextPid);
      if signo <= 0 || signo >= NSIG {
        return -1;
      }
      if pid < 0 {
        SignalGroup(-pid, signo);
        return 0;
      }
      var i := 0;
      while i < PROCESS_MAX && !(procs[i].alive && procs[i].pid == pid)
        invariant 0 <= i <= PROCESS_MAX && forall k :: 0 <= k < i ==> !(procs[k].alive && procs[k].pid == pid)
        modifies {}
      {
        i := i + 1;
      }
      if i == PROCESS_MAX {
        return -1;
      }
      OnePid(ps, nextPid, i);
      SignalOne(i, signo);
      SentKept(ps[i], signo, nextPid);
      r := 0;
    }

    /** One tick of every alarm: at zero the signal is queued and a paused task
        woken. */
    method TickAlarms()
      requires Inv()
      modifies procs, sched.tasks, this`exact
      ensures Inv() && ProcsKept(old(procs[..]), procs[..], old(nextPid)) && exact == old(exact)
      ensures TasksKept(old(sched.tasks[..]), sched.tasks[..], sched.current, 0, false)
      ensures forall k :: 0 <= k < PROCESS_MAX ==> procs[k] == Ticked(old(procs[..])[k])
      ensures Sent(old(procs[..]), old(sched.tasks[..]), sched.tasks[..], Ringing(old(procs[..]), PROCESS_MAX),
        SIG_ALRM)
    {
      hide PidsOk, TasksOk, RefsOk, Cycle, TasksKept, Sent, Ringing, Kept, TaskSent;
      ghost var ps, ts := procs[..], sched.tasks[..];
      TasksKeptSelf(ts, sched.current, false);
      NobodyRings(ps, ts);
      var i := 0;
      while i < PROCESS_MAX
        invariant 0 <= i <= PROCESS_MAX && Inv() && exact == old(exact)
        invariant TasksKept(ts, sched.tasks[..], sched.current, 0, false)
        invariant forall k :: i <= k < PROCESS_MAX ==> procs[k] == ps[k]
        invariant forall k :: 0 <= k < i ==> procs[k] == Ticked(ps[k])
        invariant Sent(ps, ts, sched.tasks[..], Ringing(ps, i), SIG_ALRM)
      {
        SlotOk(procs[..], nextPid, i);
        OneRings(ps, i);
        if procs[i].alive && procs[i].alarm > 0 {
          ghost var ts1 := sched.tasks[..];
          Update(i, procs[i].(alarm := procs[i].alarm - 1));
          if procs[i].alarm == 0 {
            SentStep(ps, ts, ts1, sched.ring, Ringing(ps, i), i, SIG_ALRM);
            SignalOne(i, SIG_ALRM);
            TasksKeptTrans(ts, ts1, sched.tasks[..], sched.current, false);
          }
        }
        i := i + 1;
      }
      forall k | 0 <= k < PROCESS_MAX ensures Kept(ps[k], procs[k], nextPid) {
        TickedKept(ps[k], nextPid);
      }
    }

    /** Switch tasks. */
    method Schedule()
      requires Inv()
      modifies sched, sched.tasks
      ensures Inv() && TasksKept(old(sched.tasks[..]), sched.tasks[..], old(sched.current), 0, false)
      ensures sched.current < TASK_MAX && Runnable(old(sched.tasks[..])[sched.current])
      ensures forall i :: 0 <= i < TASK_MAX ==>
        sched.tasks[i] == if sched.current == old(sched.current) then old(sched.tasks[..])[i]
        else Switched(old(sched.tasks[..])[i], i, old(sched.current), sched.current)
    {
      hide PidsOk, TasksOk, RefsOk, Cycle, Rotated;
      ghost var ts, ring, cur := sched.tasks[..], sched.ring, sched.current;
      ghost var j := sched.Schedule();
      Links(ts, cur, ring, j, 0);
      SameMembers(ring, j);
      Relisted(procs[..], ts, ring, sched.tasks[..], sched.ring);
    }

    /** Block the current process until a signal arrives, and switch. */
    method Pause() returns (r: int)
      requires Inv()
      modifies sched, sched.tasks
      ensures Inv() && TasksKept(old(sched.tasks[..]), sched.tasks[..], old(sched.current), 0, false)
      ensures r == if exists i :: IsCurrent(procs[..], old(sched.current), i) then 0 else -1
      ensures r == -1 ==> sched.tasks[..] == old(sched.tasks[..]) && sched.current == old(sched.current)
      ensures r == 0 ==>
        && sched.current != old(sched.current) && sched.current < TASK_MAX &&
          Runnable(old(sched.tasks[..])[sched.current])
        && sched.tasks[..] == Moved(Moved(old(sched.tasks[..]), old(sched.current), Blocked), sched.current, Running)
    {
      hide PidsOk, TasksOk, RefsOk, Cycle;
      var i := Current();
      if i == -1 {
        return -1;
      }
      assert IsCurrent(procs[..], sched.current, i);
      CurrentNat(sched.tasks[..], sched.current, sched.ring);
      ghost var ts, cur := sched.tasks[..], sched.current;
      MoveTask(i, Blocked);
      Schedule();
      assert sched.tasks[..] == Moved(Moved(ts, cur, Blocked), sched.current, Running);
      r := 0;
    }

    /** Set a handler; the two signals that cannot be caught are refused. */
    method SetHandler(signo: nat, h: nat) returns (r: int)
      requires Inv()
      modifies procs
      ensures Inv() && ProcsKept(old(procs[..]), procs[..], old(nextPid))
      ensures r == -1 <==>
        || signo == 0 || signo >= NSIG || signo == SIG_KILL || signo == SIG_STOP
        || forall i :: !IsCurrent(old(procs[..]), sched.current, i)
      ensures r == -1 ==> procs[..] == old(procs[..])
      ensures r >= 0 ==> exists i ::
        && IsCurrent(old(procs[..]), sched.current, i) && signo < |old(procs[..])[i].handlers|
        && r == old(procs[..])[i].handlers[signo]
        && procs[..] == old(procs[..])[i := old(procs[..])[i].(handlers := old(procs[..])[i].handlers[signo := h])]
    {
      hide PidsOk, TasksOk, RefsOk, Cycle;
      var i := Current();
      if signo == 0 || signo >= NSIG || signo == SIG_KILL || signo == SIG_STOP || i == -1 {
        return -1;
      }
      assert IsCurrent(procs[..], sched.current, i);
      SlotOk(procs[..], nextPid, i);
      r := procs[i].handlers[signo];
      Update(i, procs[i].(handlers := procs[i].handlers[signo := h]));
    }

    /** Set the alarm of the current process in seconds of 100 ticks, as a 32-bit
        count; the seconds that were left, rounded up, or 0. */
    method SetAlarm(secs: nat) returns (r: nat)
      requires Inv()
      modifies procs
      ensures Inv() && ProcsKept(old(procs[..]), procs[..], old(nextPid))
      ensures forall i :: IsCurrent(old(procs[..]), sched.current, i) ==>
        && r == (old(procs[..])[i].alarm + 99) % 0x1_0000_0000 / 100
        && procs[..] == old(procs[..])[i := old(procs[..])[i].(alarm := secs * 100 % 0x1_0000_0000)]
      ensures (forall i :: !IsCurrent(old(procs[..]), sched.current, i)) ==> r == 0 && procs[..] == old(procs[..])
    {
      hide PidsOk, TasksOk, RefsOk, Cycle;
      var i := Current();
      if i == -1 {
        return 0;
      }
      assert IsCurrent(procs[..], sched.current, i);
      SlotOk(procs[..], nextPid, i);
      r := (procs[i].alarm + 99) % 0x1_0000_0000 / 100;
      Update(i, procs[i].(alarm := secs * 100 % 0x1_0000_0000));
    }

    /** Move a live process, by default the current one, to a group, by default its
        own. */
    method SetGroup(pid: nat, pgid: nat) returns (r: int)
      requires Inv()
      modifies procs
      ensures Inv() && ProcsKept(old(procs[..]), procs[..], old(nextPid)) && (r == 0 || r == -1)
      ensures r == -1 <==> forall i :: !Named(old(procs[..]), sched.current, pid, i)
      ensures r == -1 ==> procs[..] == old(procs[..])
      ensures r == 0 ==> exists i ::
        && Named(old(procs[..]), sched.current, pid, i)
        && procs[..] ==
          old(procs[..])[i := old(procs[..])[i].(pgid := if pgid == 0 then old(procs[..])[i].pid else pgid)]
    {
      hide PidsOk, TasksOk, RefsOk, Cycle;
      var i: int := 0;
      if pid == 0 {
        i := Current();
        if i == -1 {
          return -1;
        }
      } else {
        while i < PROCESS_MAX && !(procs[i].alive && procs[i].pid == pid)
          invariant 0 <= i <= PROCESS_MAX && forall k :: 0 <= k < i ==> !(procs[k].alive && procs[k].pid == pid)
          modifies {}
        {
          i := i + 1;
        }
        if i == PROCESS_MAX {
          return -1;
        }
      }
      assert Named(procs[..], sched.current, pid, i);
      SlotOk(procs[..], nextPid, i);
      Update(i, procs[i].(pgid := if pgid == 0 then procs[i].pid else pgid));
      r := 0;
    }

    /** On the way back to user mode: act on the lowest pending signal. A process
        already in a handler is left alone, so its saved frame survives. */
    method Deliver(regs: Frame, pushed: bool) returns (regs': Frame)
      requires Inv()
      modifies procs, sched.tasks, this`exact
      ensures Inv() && ProcsKept(old(procs[..]), procs[..], old(nextPid))
      ensures TasksKept(old(sched.tasks[..]), sched.tasks[..], sched.current, 0, false)
      ensures forall i, s ::
        (&& IsCurrent(old(procs[..]), sched.current, i) && LowestSignal(old(procs[..])[i].pending, s)
         && regs.user && !old(procs[..])[i].delivering) ==>
        && procs[..] == old(procs[..])[i := Acted(old(procs[..])[i], s, regs, pushed)]
        && regs' == ActedRegs(old(procs[..])[i], s, regs, pushed)
        && sched.tasks[..] == if Fatal(old(procs[..])[i], s) then
          Moved(old(sched.tasks[..]), sched.current, Dead) else old(sched.tasks[..])
      ensures
        (forall i, s :: IsCurrent(old(procs[..]), sched.current, i) && LowestSignal(old(procs[..])[i].pending, s) ==>
           !regs.user || old(procs[..])[i].delivering) ==>
        procs[..] == old(procs[..]) && regs' == regs && sched.tasks[..] == old(sched.tasks[..])
      ensures exact == (old(exact) && !Doomed(old(procs[..]), sched.current, regs))
    {
      hide PidsOk, TasksOk, RefsOk, Cycle, TasksKept, HoldsEnd, Doomed;
      regs' := regs;
      ghost var ps, ts := procs[..], sched.tasks[..];
      TasksKeptSelf(sched.tasks[..], sched.current, false);
      var i := Current();
      assert procs[..] == ps && forall k :: IsCurrent(ps, sched.current, k) <==> 0 <= k == i;
      if !regs.user || i == -1 || procs[i].delivering || procs[i].pending == {} {
        NotDoomed(ps, sched.current, regs, i);
        return;
      }
      SlotOk(ps, nextPid, i);
      var signo := 1;
      while signo < NSIG && signo !in procs[i].pending
        invariant 1 <= signo <= NSIG && forall k :: 1 <= k < signo ==> k !in procs[i].pending
        modifies {}
      {
        signo := signo + 1;
      }
      if signo == NSIG {
        NotDoomed(ps, sched.current, regs, i);
        return;
      }
      assert LowestSignal(ps[i].pending, signo);
      DoomedIf(ps, sched.current, regs, i, signo);
      regs' := Act(i, signo, regs, pushed);
    }

    /** Act on one pending signal of the current process. */
    method Act(i: nat, signo: nat, regs: Frame, pushed: bool) returns (regs': Frame)
      requires Inv() && i < PROCESS_MAX && procs[i].alive && !procs[i].delivering && 0 < signo < NSIG
      modifies procs, sched.tasks, this`exact
      ensures Inv() && ProcsKept(old(procs[..]), procs[..], old(nextPid))
      ensures TasksKept(old(sched.tasks[..]), sched.tasks[..], sched.current, 0, false)
      ensures procs[..] == old(procs[..])[i := Acted(old(procs[..])[i], signo, regs, pushed)]
      ensures regs' == ActedRegs(old(procs[..])[i], signo, regs, pushed)
      ensures sched.tasks[..] == if Fatal(old(procs[..])[i], signo) then
        Moved(old(sched.tasks[..]), old(procs[..])[i].task, Dead) else old(sched.tasks[..])
      ensures exact == (old(exact) && !(Fatal(old(procs[..])[i], signo) && HoldsEnd(old(procs[..])[i])))
    {
      hide PidsOk, TasksOk, RefsOk, Cycle, TasksKept, Moved, HoldsEnd;
      regs' := regs;
      ghost var ts, t := sched.tasks[..], procs[i].task;
      SameEnds(procs[i]);
      TasksKeptSelf(ts, sched.current, false);
      BuriedKept(ts, sched.current, t);
      SlotOk(procs[..], nextPid, i);
      Update(i, procs[i].(pending := procs[i].pending - {signo}));
      var h := procs[i].handlers[signo];
      if h == 0 {
        if signo == SIG_INT || signo == SIG_ALRM || signo == SIG_TERM {
          Bury(i, 128 + signo);
        }
        return;
      }
      if h == 1 {
        return;
      }
      Update(i, procs[i].(saved := regs, delivering := pushed && regs.rsp >= 8));
      if pushed && regs.rsp >= 8 {
        regs' := regs.(rsp := regs.rsp - 8, rip := h, rdi := signo);
      }
    }

    /** Return from a handler: the interrupted frame comes back. */
    method Sigreturn(regs: Frame) returns (regs': Frame)
      requires Inv()
      modifies procs
      ensures Inv()
      ensures forall i :: IsCurrent(old(procs[..]), sched.current, i) ==>
        && procs[..] == old(procs[..])[i := old(procs[..])[i].(delivering := false)]
        && regs' == if old(procs[..])[i].delivering then old(procs[..])[i].saved else regs
      ensures (forall i :: !IsCurrent(old(procs[..]), sched.current, i)) ==>
        procs[..] == old(procs[..]) && regs' == regs
    {
      hide PidsOk, TasksOk, RefsOk, Cycle;
      regs' := regs;
      ghost var ps := procs[..];
      var i := Current();
      if i == -1 {
        return;
      }
      SlotOk(procs[..], nextPid, i);
      if procs[i].delivering {
        regs' := procs[i].saved;
        Update(i, procs[i].(delivering := false));
      } else {
        assert ps[i := ps[i]] == ps;
      }
    }
  }

  // ----- runs -----

  datatype Event =
    | DoSpawn(ok: bool, stack: bool) | DoFork(ok: bool, stack: bool) | DoExit(code: int) | DoFault(trap: nat)
    | DoWait(child: nat) | DoKill(pid: int, signo: int) | DoTick | DoYield | DoPause
    | DoHandler(sig: nat, h: nat) | DoAlarm(secs: nat) | DoGroup(member: nat, pgid: nat)
    | DoDeliver(regs: Frame, pushed: bool) | DoReturn(regs: Frame)
    | DoPipe(q: nat) | DoDup2(oldfd: int, newfd: int) | DoClose(fd: int)

  /** The kernel between two events. */
  datatype Snap = Snap(procs: seq<Proc>, tasks: seq<Task>, current: nat, next: nat, pipes: map<nat, Refs>)

  /** The counts of every pipe are exactly the live descriptors on it. */
  ghost predicate Counted(s: Snap) { Exact(s.procs, s.pipes) }

  /** A fork succeeds. */
  ghost predicate CanFork(s: Snap, ok: bool, stack: bool) {
    ok && stack && HasSlot(s.procs) && HasTask(s.tasks) && exists i :: IsCurrent(s.procs, s.current, i)
  }

  /** The event leaves pipe references without a live descriptor: a fork fails
      after the child got its parent's pipe ends, or a process that names a pipe
      end dies other than by exit. */
  ghost predicate Leaks(s: Snap, e: Event) {
    match e
    case DoFork(ok, stack) => HasSlot(s.procs) && !CanFork(s, ok, stack) && RunningHolds(s)
    case DoFault(_) => RunningHolds(s)
    case DoKill(pid, signo) => signo == SIG_KILL && KillLeaks(s.procs, pid)
    case DoDeliver(regs, _) => Doomed(s.procs, s.current, regs)
    case _ => false
  }

  ghost predicate RunningHolds(s: Snap) {
    exists i :: IsCurrent(s.procs, s.current, i) && HoldsEnd(s.procs[i])
  }

  /** What every event keeps. A dead task comes back only in the slot that a fork or
      spawn recycles, a stopped one that is not running only by SIG_CONT; nobody but
      the process that runs leaves its handler; and the counts are exact afterwards if
      and only if they were before and the event leaks none. */
  ghost predicate Stepped(s: Snap, e: Event, s': Snap, slot: nat) {
    && (slot == 0 || ((e.DoFork? || e.DoSpawn?) && FirstSlot(s.tasks, slot)))
    && TasksKept(s.tasks, s'.tasks, s.current, slot, e.DoKill? && e.signo == SIG_CONT)
    && (if e.DoReturn? then Returned(s, s') else ProcsKept(s.procs, s'.procs, s.next))
    && s.next <= s'.next && Counted(s') == (Counted(s) && !Leaks(s, e))
  }

  /** Only the process that runs may have left its handler. */
  ghost predicate Returned(s: Snap, s': Snap) {
    && |s'.procs| == |s.procs|
    && forall j :: 0 <= j < |s.procs| ==>
         s'.procs[j] == if IsCurrent(s.procs, s.current, j) then s.procs[j].(delivering := false) else s.procs[j]
  }

  /** One kernel action, for whichever task is current. */
  method Step(k: Kernel, e: Event) returns (ghost slot: nat)
    requires k.Inv()
    modifies k, k.procs, k.sched, k.sched.tasks
    ensures k.Inv() && slot < TASK_MAX && Stepped(old(k.State()), e, k.State(), slot)
  {
    hide PidsOk, TasksOk, RefsOk, Cycle, TasksKept, Kept, HoldsEnd, FirstSlot, HasTask, HasSlot, KillLeaks, Acted,
      ActedRegs, AddRefs, DropRefs, Doomed, SentTo, TaskSent, GroupSent, Sent,
      Ringing, Ticked, Moved, Placed, TaskAdded, SameLiving, AddRef, DropRef, LowestPair, ExitedTable, NoEnds, Exact;
    slot := 0;
    ExactIs(k.procs[..], k.pipes, k.exact);
    TasksKeptSelf(k.sched.tasks[..], k.sched.current, e.DoKill? && e.signo == SIG_CONT);
    KeptSelf(k.procs[..], k.nextPid);
    CurrentNat(k.sched.tasks[..], k.sched.current, k.sched.ring);
    match e {
      case DoSpawn(ok, stack) =>
        if k.sched.tasks[k.sched.current].state != Dead {
          var pid;
          pid, slot := k.Spawn(ok, stack);
        }
      case DoFork(ok, stack) => slot := StepFork(k, ok, stack);
      case DoExit(code) => k.Exit(code);
      case DoFault(signo) => k.Fault(signo);
      case DoWait(pid) => var _ := k.WaitRound(pid);
      case DoKill(pid, signo) => var _ := k.Kill(pid, signo);
      case DoTick => k.TickAlarms();
      case DoYield => k.Schedule();
      case DoPause => var _ := k.Pause();
      case DoHandler(signo, h) => var _ := k.SetHandler(signo, h);
      case DoAlarm(secs) => var _ := k.SetAlarm(secs);
      case DoGroup(member, pgid) => var _ := k.SetGroup(member, pgid);
      case DoDeliver(regs, pushed) => var _ := k.Deliver(regs, pushed);
      case DoReturn(regs) => StepReturn(k, regs);
      case DoPipe(q) =>
        if q !in k.pipes {
          var _, _, _ := k.MakePipe(q);
        }
      case DoDup2(oldfd, newfd) => var _ := k.Dup2(oldfd, newfd);
      case DoClose(fd) => var _ := k.Close(fd);
    }
    ExactIs(k.procs[..], k.pipes, k.exact);
  }

  method StepFork(k: Kernel, ok: bool, stack: bool) returns (ghost slot: nat)
    requires k.Inv()
    modifies k, k.procs, k.sched, k.sched.tasks
    ensures k.Inv() && slot < TASK_MAX && Stepped(old(k.State()), DoFork(ok, stack), k.State(), slot)
  {
    hide PidsOk, TasksOk, RefsOk, Cycle, TasksKept, Kept, HoldsEnd, FirstSlot, HasTask, HasSlot, AddRefs, Exact;
    ExactIs(k.procs[..], k.pipes, k.exact);
    ghost var i := k.Current();
    ghost var s := k.State();
    assert i >= 0 ==> IsCurrent(s.procs, s.current, i);
    var pid;
    pid, slot := k.Fork(ok, stack);
    ExactIs(k.procs[..], k.pipes, k.exact);
  }

  method StepReturn(k: Kernel, regs: Frame)
    requires k.Inv()
    modifies k, k.procs, k.sched, k.sched.tasks
    ensures k.Inv() && Returned(old(k.State()), k.State()) && k.State() == old(k.State()).(procs := k.procs[..])
    ensures k.exact == old(k.exact)
  {
    hide PidsOk, TasksOk, RefsOk, Cycle;
    var i := k.Current();
    ghost var s := k.State();
    assert i >= 0 ==> IsCurrent(s.procs, s.current, i);
    var _ := k.Sigreturn(regs);
  }

  /** The states of a run, one before each event and one at the end. */
  ghost predicate Trace(es: seq<Event>, trace: seq<Snap>) {
    && |trace| == |es| + 1
    && forall n: nat :: n < |es| ==> Linked(trace[n], es[n], trace[n + 1])
  }

  ghost predicate Linked(s: Snap, e: Event, s': Snap) { exists slot: nat :: Stepped(s, e, s', slot) }

  lemma TraceOn(es: seq<Event>, n: nat, trace: seq<Snap>, s: Snap)
    requires n < |es| && Trace(es[..n], trace) && Linked(trace[n], es[n], s)
    ensures Trace(es[..n + 1], trace + [s])
  {
    hide Linked;
    var t := trace + [s];
    forall m: nat | m < n + 1 ensures Linked(t[m], es[..n + 1][m], t[m + 1]) {
      if m < n {
        assert Linked(trace[m], es[..n][m], trace[m + 1]);
      }
    }
  }

  lemma TraceBack(es: seq<Event>, n: nat, trace: seq<Snap>)
    requires n <= |es| && Trace(es, trace)
    ensures Trace(es[..n], trace[..n + 1])
  {
    hide Linked;
    forall m: nat | m < n ensures Linked(trace[..n + 1][m], es[..n][m], trace[..n + 1][m + 1]) {
      assert Linked(trace[m], es[m], trace[m + 1]);
    }
  }

  /** Along a run the counts end exact if and only if they began so and no event leaked:
      no later event repairs a leak. */
  lemma {:induction false} ExactAlong(es: seq<Event>, trace: seq<Snap>)
    requires Trace(es, trace)
    ensures Counted(trace[|es|]) == (Counted(trace[0]) && forall n: nat :: n < |es| ==> !Leaks(trace[n], es[n]))
    decreases |es|
  {
    hide Leaks, TasksKept, ProcsKept, FirstSlot, Returned, Counted;
    if es != [] {
      var n := |es| - 1;
      TraceBack(es, n, trace);
      ExactAlong(es[..n], trace[..n + 1]);
      assert Linked(trace[n], es[n], trace[n + 1]);
      assert forall m: nat :: m < n ==> Leaks(trace[..n + 1][m], es[..n][m]) == Leaks(trace[m], es[m]);
    }
  }

  /** Over every run the table, the tasks and the reference counts stay sound, and
      the counts end exact if and only if they began so and no event of the run leaked. */
  method Run(k: Kernel, es: seq<Event>) returns (ghost trace: seq<Snap>)
    requires k.Inv()
    modifies k, k.procs, k.sched, k.sched.tasks
    ensures k.Inv() && Trace(es, trace) && trace[0] == old(k.State()) && trace[|es|] == k.State()
    ensures Counted(k.State()) == (old(Counted(k.State())) && forall n: nat :: n < |es| ==> !Leaks(trace[n], es[n]))
  {
    hide PidsOk, TasksOk, RefsOk, Cycle, Stepped, Leaks, Exact;
    trace := [k.State()];
    var n := 0;
    while n < |es|
      invariant 0 <= n <= |es| && k.Inv() && |trace| == n + 1 && trace[0] == old(k.State()) && trace[n] == k.State()
      invariant Trace(es[..n], trace)
    {
      ghost var slot := Step(k, es[n]);
      assert Linked(trace[n], es[n], k.State());
      TraceOn(es, n, trace, k.State());
      trace := trace + [k.State()];
      n := n + 1;
    }
    assert es[..n] == es;
    ExactAlong(es, trace);
  }

  // ----- handlers -----

  /** Signal s makes the process call a handler from the interrupted frame. */
  predicate CallsHandler(p: Proc, s: nat, regs: Frame, pushed: bool) {
    !p.delivering && LowestSignal(p.pending, s) && Handler(p, s) > 1 && regs.user && pushed && regs.rsp >= 8
  }

  /** Process i, if it is still the one numbered pid, is in the handler that
      interrupted the frame. */
  ghost predicate InHandler(s: Snap, i: nat, pid: nat, regs: Frame) {
    && i < |s.procs| && pid < s.next
    && (s.procs[i].alive && s.procs[i].pid == pid ==> s.procs[i].delivering && s.procs[i].saved == regs)
  }

  /** It stays there until it returns itself. */
  lemma StaysInHandler(s: Snap, e: Event, s': Snap, slot: nat, i: nat, pid: nat, regs: Frame)
    requires Stepped(s, e, s', slot) && InHandler(s, i, pid, regs)
    requires e.DoReturn? && IsCurrent(s.procs, s.current, i) ==> s.procs[i].pid != pid
    ensures InHandler(s', i, pid, regs)
  {
    hide TasksKept, Leaks, FirstSlot;
    assert e.DoReturn? || Kept(s.procs[i], s'.procs[i], s.next);
  }

  lemma {:induction false} HandlerAlong(es: seq<Event>, trace: seq<Snap>, n: nat, i: nat, pid: nat, regs: Frame)
    requires Trace(es, trace) && n <= |es| && InHandler(trace[0], i, pid, regs)
    requires forall m: nat :: m < n && es[m].DoReturn? && IsCurrent(trace[m].procs, trace[m].current, i) ==>
      trace[m].procs[i].pid != pid
    ensures InHandler(trace[n], i, pid, regs)
  {
    hide Stepped, InHandler;
    if n > 0 {
      HandlerAlong(es, trace, n - 1, i, pid, regs);
      assert Linked(trace[n - 1], es[n - 1], trace[n - 1 + 1]);
      var slot: nat :| Stepped(trace[n - 1], es[n - 1], trace[n], slot);
      StaysInHandler(trace[n - 1], es[n - 1], trace[n], slot, i, pid, regs);
    }
  }

  /** A delivery that calls a handler, then any run, then the return: the frame that
      the delivery interrupted comes back, whatever was queued, whoever else was
      interrupted or returned. */
  method RunThenReturn(k: Kernel, i: nat, s: nat, regs: Frame, es: seq<Event>, later: Frame)
    returns (regs': Frame, ghost trace: seq<Snap>)
    requires k.Inv() && IsCurrent(k.procs[..], k.sched.current, i) && CallsHandler(k.procs[i], s, regs, true)
    modifies k, k.procs, k.sched, k.sched.tasks
    ensures k.Inv() && Trace(es, trace) && Stepped(old(k.State()), DoDeliver(regs, true), trace[0], 0)
    ensures var last := trace[|es|]; var pid := old(k.procs[i].pid);
      && IsCurrent(last.procs, last.current, i) && last.procs[i].pid == pid
      && (forall n: nat :: n < |es| && es[n].DoReturn? && IsCurrent(trace[n].procs, trace[n].current, i) ==>
            trace[n].procs[i].pid != pid)
      ==> regs' == regs
  {
    hide PidsOk, TasksOk, RefsOk, Cycle, Stepped, Leaks, Linked;
    ghost var s0, pid := k.State(), k.procs[i].pid;
    SlotOk(k.procs[..], k.nextPid, i);
    DeliverStep(k, i, s, regs);
    ghost var s1 := k.State();
    trace := Run(k, es);
    regs' := k.Sigreturn(later);
    if forall n: nat :: n < |es| && es[n].DoReturn? && IsCurrent(trace[n].procs, trace[n].current, i) ==>
      trace[n].procs[i].pid != pid {
      HandlerAlong(es, trace, |es|, i, pid, regs);
    }
  }

  method DeliverStep(k: Kernel, i: nat, s: nat, regs: Frame)
    requires k.Inv() && IsCurrent(k.procs[..], k.sched.current, i) && CallsHandler(k.procs[i], s, regs, true)
    requires k.procs[i].pid < k.nextPid
    modifies k, k.procs, k.sched, k.sched.tasks
    ensures k.Inv() && Stepped(old(k.State()), DoDeliver(regs, true), k.State(), 0)
    ensures InHandler(k.State(), i, old(k.procs[i].pid), regs)
  {
    hide PidsOk, TasksOk, RefsOk, Cycle, TasksKept, Kept, HoldsEnd, Exact;
    ghost var ps, cur := k.procs[..], k.sched.current;
    ExactIs(ps, k.pipes, k.exact);
    var _ := k.Deliver(regs, true);
    ExactIs(k.procs[..], k.pipes, k.exact);
    assert IsCurrent(ps, cur, i) && LowestSignal(ps[i].pending, s);
    assert k.procs[..] == ps[i := Acted(ps[i], s, regs, true)];
  }

  /** Whom a kill with this argument reaches: a process, or a group for a negative
      number. */
  predicate KillHits(p: Proc, pid: int) { p.alive && if pid < 0 then p.pgid == -pid else pid == p.pid }

  /** Some process that such a kill ends still names a pipe end. */
  ghost predicate KillLeaks(ps: seq<Proc>, pid: int) {
    exists k :: 0 <= k < |ps| && KillHits(ps[k], pid) && HoldsEnd(ps[k])
  }

  lemma SameEnds(p: Proc)
    ensures forall q: Proc :: q.fds == p.fds ==> (HoldsEnd(q) <==> HoldsEnd(p))
  {
  }

  lemma NoLeak(ps: seq<Proc>, pid: int)
    ensures !KillLeaks(ps[..0], pid) && KillLeaks(ps[..|ps|], pid) == KillLeaks(ps, pid)
  {
    assert ps[..|ps|] == ps;
  }

  lemma OneLeak(ps: seq<Proc>, pid: int, i: nat)
    requires i < |ps|
    ensures KillLeaks(ps[..i + 1], pid) <==> KillLeaks(ps[..i], pid) || (KillHits(ps[i], pid) && HoldsEnd(ps[i]))
  {
    hide HoldsEnd;
    assert forall k :: 0 <= k < i ==> ps[..i + 1][k] == ps[..i][k];
  }

  lemma NobodyZero(ps: seq<Proc>, next: nat)
    requires PidsOk(ps, next)
    ensures !KillLeaks(ps, 0)
  {
  }

  lemma OnePid(ps: seq<Proc>, next: nat, i: nat)
    requires PidsOk(ps, next) && i < |ps| && ps[i].alive
    ensures KillLeaks(ps, ps[i].pid) <==> HoldsEnd(ps[i])
  {
    hide HoldsEnd;
    assert KillHits(ps[i], ps[i].pid);
  }

  /** A group's live processes and their tasks got the signal, and nobody else. */
  ghost predicate GroupSent(ps: seq<Proc>, ps': seq<Proc>, ts: seq<Task>, ts': seq<Task>, pgid: nat, signo: nat) {
    && |ps'| == |ps|
    && (forall k :: 0 <= k < |ps| ==>
      ps'[k] == if ps[k].alive && ps[k].pgid == pgid then SentTo(ps[k], signo) else ps[k])
    && Sent(ps, ts, ts', Members(ps, pgid, |ps|), signo)
  }

  lemma NobodySent(ps: seq<Proc>, ts: seq<Task>, pgid: nat, signo: nat)
    ensures Sent(ps, ts, ts, Members(ps, pgid, 0), signo)
  {
  }

  lemma OneMember(ps: seq<Proc>, pgid: nat, i: nat)
    requires i < |ps|
    ensures Members(ps, pgid, i + 1) == if ps[i].alive &&
      ps[i].pgid == pgid then Members(ps, pgid, i) + {i} else Members(ps, pgid, i)
    ensures i !in Members(ps, pgid, i) && forall k :: k in Members(ps, pgid, i) ==> k < |ps| && ps[k].alive
  {
  }

  lemma NobodyRings(ps: seq<Proc>, ts: seq<Task>)
    ensures Sent(ps, ts, ts, Ringing(ps, 0), SIG_ALRM)
  {
  }

  lemma OneRings(ps: seq<Proc>, i: nat)
    requires i < |ps|
    ensures Ringing(ps, i + 1) == if ps[i].alive && ps[i].alarm == 1 then Ringing(ps, i) + {i} else Ringing(ps, i)
    ensures i !in Ringing(ps, i) && forall k :: k in Ringing(ps, i) ==> k < |ps| && ps[k].alive
  {
  }

  lemma SentKept(p: Proc, signo: nat, next: nat)
    ensures p.alive ==> Kept(p, SentTo(p, signo), next)
    ensures Kept(p, p, next)
  {
  }

  lemma TickedKept(p: Proc, next: nat)
    ensures Kept(p, Ticked(p), next)
  {
  }

  lemma SentTasksKept(ts: seq<Task>, t: int, signo: nat, cur: nat)
    requires 0 <= t < |ts| ==> ts[t].state != Dead
    ensures TasksKept(ts, TaskSent(ts, t, signo), cur, 0, signo == SIG_CONT)
  {
  }

  lemma BuriedKept(ts: seq<Task>, cur: nat, t: int)
    ensures TasksKept(ts, Moved(ts, t, Dead), cur, 0, false)
  {
  }

  lemma NoneLeft(fds: seq<Fd>)
    ensures forall p: Proc :: p.fds == NoEnds(fds) ==> !HoldsEnd(p)
  {
  }

  ghost predicate Reaped(ps: seq<Proc>, ps': seq<Proc>, pid: nat) {
    |ps'| == |ps| && forall k :: 0 <= k < |ps| ==>
      ps'[k] == if Orphan(ps[k], pid) then ps[k].(reaped := true) else ps[k]
  }

  lemma ReapedAlike(ps: seq<Proc>, ps': seq<Proc>, pid: nat)
    requires Reaped(ps, ps', pid)
    ensures forall k :: 0 <= k < |ps| ==>
      ps'[k].alive == ps[k].alive && ps'[k].pid == ps[k].pid && ps'[k].parent == ps[k].parent
  {
  }

  lemma ExitedIs(ps: seq<Proc>, ps2: seq<Proc>, ps3: seq<Proc>, ps4: seq<Proc>, i: nat, code: int, parent: bool)
    requires i < |ps| && ps[i].alive && Reaped(ps2, ps3, ps[i].pid)
    requires ps2 == ps[i := ps[i].(fds := NoEnds(ps[i].fds), alive := false, exitCode := code)]
    requires parent <==> exists k :: 0 <= k < |ps3| && ps3[k].pid == ps[i].parent && ps3[k].alive
    requires ps4 == if parent then ps3 else ps3[i := ps3[i].(reaped := true)]
    ensures ExitedTable(ps, ps4, i, code)
  {
    hide NoEnds;
    StillAlive(ps, ps3, ps[i].parent, i);
  }

  lemma ExitedKept(ps: seq<Proc>, ps': seq<Proc>, i: nat, code: int, next: nat)
    requires ExitedTable(ps, ps', i, code) && ps[i].alive
    ensures ProcsKept(ps, ps', next)
  {
  }

  /** Whether a live process has the number, after process i died and some dead
      ones were marked. */
  lemma StillAlive(ps: seq<Proc>, ps': seq<Proc>, pid: nat, i: nat)
    requires |ps'| == |ps| && i < |ps| && !ps'[i].alive
    requires forall k :: 0 <= k < |ps| && k != i ==> ps'[k].alive == ps[k].alive && ps'[k].pid == ps[k].pid
    ensures LiveOther(ps, pid, i) <==> exists k :: 0 <= k < |ps'| && ps'[k].pid == pid && ps'[k].alive
  {
  }

  lemma NoRefs(pipes: map<nat, Refs>, fds: seq<Fd>)
    ensures AddRefs(pipes, fds[..0]) == pipes && DropRefs(pipes, fds[..0]) == pipes
  {
  }

  /** A stop that was not reported yet. */
  predicate NewStop(p: Proc, ts: seq<Task>) {
    p.alive && 0 <= p.task < |ts| && ts[p.task].state == Stopped && !p.stopReported
  }

  lemma TasksKeptSelf(ts: seq<Task>, cur: nat, cont: bool)
    ensures TasksKept(ts, ts, cur, 0, cont)
  {
  }

  lemma TasksKeptTrans(a: seq<Task>, b: seq<Task>, c: seq<Task>, cur: nat, cont: bool)
    requires TasksKept(a, b, cur, 0, cont) && TasksKept(b, c, cur, 0, cont)
    requires |a| > 0 ==> Runnable(a[0])
    ensures TasksKept(a, c, cur, 0, cont)
  {
  }

  lemma TasksKeptOn(a: seq<Task>, b: seq<Task>, c: seq<Task>, cur: nat, slot: nat)
    requires TasksKept(a, b, cur, slot, false) && |c| == |b| && forall t :: 0 <= t < |b| ==> SameButNext(c[t], b[t])
    ensures TasksKept(a, c, cur, slot, false)
  {
  }

  lemma KeptSelf(ps: seq<Proc>, next: nat)
    ensures ProcsKept(ps, ps, next) && forall i :: 0 <= i < |ps| ==> Kept(ps[i], ps[i], next)
  {
  }

  lemma SameMembers(ring: seq<nat>, j: nat)
    requires j <= |ring|
    ensures forall t :: t in ring ==> t in Rotated(ring, j)
  {
    assert ring == ring[..j] + ring[j..];
  }

  lemma CurrentNat(ts: seq<Task>, cur: nat, ring: seq<nat>)
    requires Cycle(ts, cur, ring)
    ensures cur < |ts|
  {
  }

  datatype Waited = NoChild | Exited(code: int) | StopSeen | Pending

  predicate DeadWith(p: Proc, pid: nat, code: int) { p.pid == pid && !p.alive && p.exitCode == code }

  /** A dead child of pid that nobody waited for. */
  predicate Orphan(p: Proc, pid: nat) { p.parent == pid && !p.alive && !p.reaped }

  /** A child as fork makes it. */
  function ChildOf(p: Proc, pid: nat, task: int): Proc {
    Fresh(pid).(parent := p.pid, pgid := p.pgid, fds := p.fds, task := task)
  }

  lemma ChildOk(p: Proc, pid: nat)
    ensures var c := ChildOf(p, pid, -1); c.alive && c.pid == pid && c.task == -1
  {
  }

  lemma ChildEnds(p: Proc, pid: nat)
    ensures HoldsEnd(ChildOf(p, pid, -1)) <==> HoldsEnd(p)
  {
  }

  lemma ChildTask(p: Proc, pid: nat, t: nat)
    ensures ChildOf(p, pid, -1).(task := t) == ChildOf(p, pid, t)
  {
  }

  lemma Relisted(ps: seq<Proc>, ts: seq<Task>, ring: seq<nat>, ts': seq<Task>, ring': seq<nat>)
    requires TasksOk(ps, ts, ring) && |ts'| == |ts|
    requires forall t :: 0 <= t < |ts| && t in ring && ts[t].state != Dead ==> t in ring' && ts'[t].state != Dead
    ensures TasksOk(ps, ts', ring')
  {
  }

  lemma NotTaken(ps: seq<Proc>, ts: seq<Task>, ring: seq<nat>, t: nat)
    requires TasksOk(ps, ts, ring) && t !in ring
    ensures forall i :: 0 <= i < |ps| && Tasked(ps[i]) ==> ps[i].task != t
  {
  }

  lemma TaskGiven(ps: seq<Proc>, ts: seq<Task>, ring: seq<nat>, c: nat, p: Proc)
    requires TasksOk(ps, ts, ring) && c < |ps| && 0 < p.task < |ts| && p.task in ring && ts[p.task].state != Dead
    requires forall i :: 0 <= i < |ps| && Tasked(ps[i]) ==> ps[i].task != p.task
    ensures TasksOk(ps[c := p], ts, ring)
  {
  }

  /** A process as allocation leaves it: console descriptors and no task. */
  function Fresh(pid: nat): Proc {
    Empty().(pid := pid, pgid := pid, alive := true, fds := seq(FD_MAX, k => if k < 3 then Console else Closed))
  }

  lemma EmptyOk()
    ensures ShapeOk(Empty()) && !Empty().alive && Empty().pid == 0
  {
  }

  lemma FreshOk(pid: nat)
    ensures ShapeOk(Fresh(pid)) && Fresh(pid).alive && Fresh(pid).pid == pid && Fresh(pid).task == -1
    ensures !Fresh(pid).delivering && forall k :: 0 <= k < FD_MAX ==> !IsPipe(Fresh(pid).fds[k])
    ensures forall parent: nat :: !HoldsEnd(Fresh(pid).(parent := parent))
  {
  }

  lemma Cleared(ps: seq<Proc>, next: nat, i: nat)
    requires PidsOk(ps, next) && i < |ps|
    ensures PidsOk(ps[i := Empty()], next)
  {
  }

  lemma Numbered(ps: seq<Proc>, next: nat, i: nat, p: Proc)
    requires PidsOk(ps, next) && i < |ps| && ShapeOk(p) && p.pid == next
    ensures PidsOk(ps[i := p], next + 1)
  {
  }

  lemma NobodyThere(ps: seq<Proc>)
    requires forall i :: 0 <= i < |ps| ==> !ps[i].alive
    ensures RefsOk(ps, map[], true)
  {
    forall f: Fd ensures Total(ps, f) == 0 {
      NoneHeld(ps, f);
    }
  }

  lemma {:induction false} NoneHeld(ps: seq<Proc>, f: Fd)
    requires forall i :: 0 <= i < |ps| ==> !ps[i].alive
    ensures Total(ps, f) == 0
  {
    if ps != [] {
      NoneHeld(ps[..|ps| - 1], f);
    }
  }

  lemma NoRef(pipes: map<nat, Refs>, f: Fd)
    requires !IsPipe(f)
    ensures AddRef(pipes, f) == pipes && DropRef(pipes, f) == pipes
  {
  }

  lemma NewPipe(ps: seq<Proc>, pipes: map<nat, Refs>, exact: bool, q: nat)
    requires RefsOk(ps, pipes, exact) && q !in pipes
    ensures RefsOk(ps, pipes[q := Refs(0, 0)], exact)
  {
    hide Total, Exact;
    forall k: nat
      ensures SameCount(pipes, pipes[q := Refs(0, 0)], k, Total(ps, ReadEnd(k)), Total(ps, WriteEnd(k)),
        Total(ps, ReadEnd(k)), Total(ps, WriteEnd(k)))
    {
      assert PipeOk(pipes, k, Total(ps, ReadEnd(k)), Total(ps, WriteEnd(k)));
    }
    SameCounts(ps, pipes, exact, ps, pipes[q := Refs(0, 0)]);
  }
}
