/** What the invariant of the protocol says about whole runs: system calls come back to the stack
    pointer they left, the end of a task is final, frees happen once, and nobody waits forever for
    a turn. */
module ProtocolRuns {
  import opened Options
  import opened TaskRing
  import opened SyscallProtocol
  import opened StepEffects

  // ---- at every moment ----

  /** Exactly the task in front runs. */
  lemma OneRunning(m: Machine, i: nat)
    requires Inv(m) && i < |m.s.ring|
    ensures m.s.ring[i].state.Running? <==> i == 0
  {
    assert Placed(m.s, i, false);
  }

  /** Whatever enters the kernel from ring 3, by a system call or an interrupt, lands on the running
      task's own kernel stack, and its system call finds the per-CPU block. */
  lemma Ring3Entry(m: Machine)
    requires Inv(m) && At(m).Ring3?
    ensures m.kernelRsp == m.rsp0 == m.Current().top && m.Current().top != 0
    ensures m.kgs == Local && Swapgs(m).gs == Local && m.fs == m.Current().fsBase
    ensures m.Current().cr3 != 0 ==> m.cr3 == m.Current().cr3
  {
    assert Fits(m, 0);
  }

  /** The exit stub finds the per-CPU block, leaves it behind swapgs, and SYSRET goes back to the
      stack pointer of the entry. */
  lemma SysretStep(m: Machine)
    requires Inv(m) && Enabled(m, Return)
    ensures m.gs == Local && Next(m, Return).kgs == Local
    ensures At(Next(m, Return)) == Ring3(At(m).entry)
  {
  }

  /** A task that waits for a child has it on the ring for the whole wait. */
  lemma ChildStays(m: Machine, i: nat)
    requires Inv(m) && i < |m.s.ring| && m.s.ring[i].id in m.phase
    requires var p := m.phase[m.s.ring[i].id]; (p.Waiting? || p.Yielding?) && p.why.Child?
    ensures var c := Index(m.s.ring, m.phase[m.s.ring[i].id].why.id);
      c < |m.s.ring| && m.s.ring[c].parent == Some(m.s.ring[i].id)
  {
    assert Fits(m, i);
  }

  // ---- system calls come back ----

  /** Inside a system call, the one entered with stack pointer r. */
  predicate InCall(p: Phase, r: nat) {
    (p.Call? || p.Waiting? || p.Yielding?) ==> p.entry == r
  }

  /** Only the task in front changes its phase; a new task starts outside any call. */
  lemma PhaseStep(m: Machine, a: Action, t: nat, r: nat)
    requires Inv(m) && Enabled(m, a) && t in m.phase && t < m.nextId && InCall(m.phase[t], r)
    requires a.Trap? ==> m.CurrentId() != t
    ensures t in Next(m, a).phase && InCall(Next(m, a).phase[t], r) && t < Next(m, a).nextId
  {
    hide Ordered, Fits, Scheduled, Reaped;
  }

  /** Task t makes no system call strictly between steps j and i. */
  ghost predicate NoTrap(run: seq<Machine>, acts: seq<Action>, j: nat, i: nat, t: nat)
    requires i <= |acts| <= |run|
  {
    forall k {:trigger acts[k]} | j < k < i && |run[k].s.ring| > 0 && run[k].CurrentId() == t :: !acts[k].Trap?
  }

  lemma {:induction false} CallStays(run: seq<Machine>, acts: seq<Action>, idleTop: nat, j: nat, i: nat, t: nat, r: nat)
    requires Run(run, acts, idleTop) && j < i <= |acts|
    requires acts[j].Trap? && run[j].CurrentId() == t && At(run[j]) == Ring3(r)
    requires NoTrap(run, acts, j, i, t)
    ensures t in run[i].phase && InCall(run[i].phase[t], r) && t < run[i].nextId
  {
    hide Ordered, Fits;
    RunInv(run, acts, idleTop, i - 1);
    assert Enabled(run[i - 1], acts[i - 1]) && run[i] == Next(run[i - 1], acts[i - 1]);
    if i == j + 1 {
      FrontNumber(run[j]);
    } else {
      CallStays(run, acts, idleTop, j, i - 1, t, r);
      PhaseStep(run[i - 1], acts[i - 1], t, r);
    }
  }

  lemma FrontNumber(m: Machine)
    requires Inv(m)
    ensures m.CurrentId() < m.nextId
  {
    assert Fits(m, 0);
  }

  /** Each SYSRET reloads the user stack pointer that the same task had at its SYSCALL, whatever
      other tasks did in between. */
  lemma SysretMatches(run: seq<Machine>, acts: seq<Action>, idleTop: nat, j: nat, i: nat)
    requires Run(run, acts, idleTop) && j < i < |acts|
    requires acts[j].Trap? && acts[i].Return? && run[i].CurrentId() == run[j].CurrentId()
    requires NoTrap(run, acts, j, i, run[j].CurrentId())
    ensures |run[i + 1].s.ring| > 0 && run[i + 1].CurrentId() == run[i].CurrentId() && run[i].CurrentId() in run[i + 1].phase
    ensures At(run[j]).Ring3? && At(run[i + 1]) == At(run[j])
  {
    assert Enabled(run[j], acts[j]) && Enabled(run[i], acts[i]);
    var r := At(run[j]).rsp;
    RunInv(run, acts, idleTop, i);
    CallStays(run, acts, idleTop, j, i, run[j].CurrentId(), r);
    SysretStep(run[i]);
  }

  // ---- fork comes back twice ----

  /** A new child waits, whatever happens, until it enters ring 3 itself or its entry function ends. */
  lemma ForkedStep(m: Machine, a: Action, t: nat, r: nat)
    requires Inv(m) && Enabled(m, a) && t in m.phase && t < m.nextId && m.phase[t] == Kernel(Forked(r))
    requires m.CurrentId() == t ==> !a.EnterRing3? && !a.Fall?
    ensures t in Next(m, a).phase && Next(m, a).phase[t] == Kernel(Forked(r)) && t < Next(m, a).nextId
  {
    hide Ordered, Fits, Scheduled, Reaped;
  }

  /** Task t neither enters ring 3 nor falls off its entry function strictly between steps k and i. */
  ghost predicate StillNew(run: seq<Machine>, acts: seq<Action>, k: nat, i: nat, t: nat)
    requires i <= |acts| <= |run|
  {
    forall j {:trigger acts[j]} | k < j < i && |run[j].s.ring| > 0 && run[j].CurrentId() == t :: !acts[j].EnterRing3? && !acts[j].Fall?
  }

  lemma {:induction false} ForkedStays(run: seq<Machine>, acts: seq<Action>, idleTop: nat, k: nat, i: nat, t: nat, r: nat)
    requires Run(run, acts, idleTop) && k < i <= |acts| && acts[k].Fork? && |run[k].s.ring| > 0 && run[k].CurrentId() in run[k].phase
    requires t == run[k].nextId && At(run[k]) == Call(r) && StillNew(run, acts, k, i, t)
    ensures t in run[i].phase && run[i].phase[t] == Kernel(Forked(r)) && t < run[i].nextId
  {
    hide Ordered, Fits;
    RunInv(run, acts, idleTop, i - 1);
    assert Enabled(run[i - 1], acts[i - 1]) && run[i] == Next(run[i - 1], acts[i - 1]);
    if i > k + 1 {
      ForkedStays(run, acts, idleTop, k, i - 1, t, r);
      ForkedStep(run[i - 1], acts[i - 1], t, r);
    }
  }

  /** The child of a fork enters ring 3 with the stack pointer that its parent had when it made the
      system call: trap j and fork k of the parent, entry i of the child. */
  lemma ChildStack(run: seq<Machine>, acts: seq<Action>, idleTop: nat, j: nat, k: nat, i: nat)
    requires Run(run, acts, idleTop) && j < k < i < |acts| && acts[j].Trap? && acts[k].Fork? && acts[i].EnterRing3?
    requires run[k].CurrentId() == run[j].CurrentId() && NoTrap(run, acts, j, k, run[j].CurrentId())
    requires run[i].CurrentId() == run[k].nextId && StillNew(run, acts, k, i, run[k].nextId)
    ensures At(run[j]).Ring3? && |run[i + 1].s.ring| > 0 && run[i + 1].CurrentId() == run[k].nextId && run[k].nextId in run[i + 1].phase
    ensures At(run[i + 1]) == At(run[j])
  {
    hide Ordered, Fits, Next;
    assert Enabled(run[j], acts[j]) && Enabled(run[k], acts[k]) && Enabled(run[i], acts[i]);
    var r := At(run[j]).rsp;
    CallStays(run, acts, idleTop, j, k, run[j].CurrentId(), r);
    ForkedStays(run, acts, idleTop, k, i, run[k].nextId, r);
    EnterStep(run[i], acts[i], r);
  }

  lemma EnterStep(m: Machine, a: Action, r: nat)
    requires |m.s.ring| > 0 && m.CurrentId() in m.phase && Enabled(m, a) && a.EnterRing3? && At(m) == Kernel(Forked(r))
    ensures Next(m, a).s == m.s && m.CurrentId() in Next(m, a).phase && At(Next(m, a)) == Ring3(r)
  {
  }

  // ---- the end of a task is final ----

  /** Task t has ended: it is dead on the ring, or freed. */
  ghost predicate Over(s: Sched, t: nat) {
    match CardOf(s.ring, t)
    case Some(c) => c.dead
    case None => t in s.freed
  }

  /** Once over, always over. */
  lemma OverStep(m: Machine, a: Action, t: nat)
    requires Inv(m) && Enabled(m, a) && Over(m.s, t)
    ensures Over(Next(m, a).s, t)
  {
    hide Ordered, Fits, Next, CardOf;
    StepEffect(m, a);
    FrontIs(m);
    NextIsNew(m);
  }

  /** The next number belongs to nobody. */
  lemma NextIsNew(m: Machine)
    requires Inv(m)
    ensures CardOf(m.s.ring, m.nextId).None? && m.nextId !in m.s.freed && m.CurrentId() < m.nextId
  {
    Unused(m);
    FrontBelow(m);
  }

  /** A task that has ended is never in front again, at any later moment of any run: exit_current
      never comes back. */
  lemma {:induction false} EndIsFinal(run: seq<Machine>, acts: seq<Action>, idleTop: nat, j: nat, i: nat)
    requires Run(run, acts, idleTop) && j < i <= |acts| && (acts[j].Exit? || acts[j].Fall?) && |run[j].s.ring| > 0
    ensures Inv(run[i]) && Over(run[i].s, run[j].CurrentId()) && run[i].CurrentId() != run[j].CurrentId()
  {
    hide Ordered, Fits, Next, Over;
    var t := run[j].CurrentId();
    RunInv(run, acts, idleTop, i - 1);
    RunInv(run, acts, idleTop, i);
    assert Enabled(run[i - 1], acts[i - 1]);
    if i == j + 1 {
      EndStep(run[j], acts[j]);
    } else {
      EndIsFinal(run, acts, idleTop, j, i - 1);
      OverStep(run[i - 1], acts[i - 1], t);
    }
    NotInFront(run[i], t);
  }

  lemma NotInFront(m: Machine, t: nat)
    requires Inv(m) && Over(m.s, t)
    ensures m.CurrentId() != t
  {
    FrontIs(m);
  }

  lemma EndStep(m: Machine, a: Action)
    requires Inv(m) && Enabled(m, a) && Ends(a)
    ensures Over(Next(m, a).s, m.CurrentId())
  {
    hide Ordered, Fits, Next, CardOf;
    StepEffect(m, a);
    NotTheZombie(m);
  }

  // ---- frees ----

  /** A free is of one dead task on the ring behind the running one, not freed before. */
  ghost predicate FreesOne(s: Sched, freed': set<nat>) {
    freed' == s.freed || exists i: nat :: 0 < i < |s.ring| && s.ring[i].state.Dead? && s.ring[i].id !in s.freed && freed' == s.freed + {s.ring[i].id}
  }

  /** What a step frees is dead, on the ring behind the running task, and was not freed before. */
  lemma FreesDead(m: Machine, a: Action, z: nat)
    requires Inv(m) && Enabled(m, a) && Frees(m, a) == Some(z)
    ensures var i := Index(m.s.ring, z);
      0 < i < |m.s.ring| && m.s.ring[i].state.Dead? && z !in m.s.freed && CardOf(m.s.ring, z) == Some(CardAt(m.s.ring[i]))
  {
    assert Placed(m.s, 0, false) && Placed(m.s, Index(m.s.ring, z), false);
  }

  /** In a step at most one task is freed, and never one that was freed before or that runs. */
  lemma FreeStep(m: Machine, a: Action)
    requires Inv(m) && Enabled(m, a)
    ensures FreesOne(m.s, Next(m, a).s.freed)
  {
    hide Ordered, Fits, Next, CardOf;
    StepEffect(m, a);
    if Frees(m, a).Some? { FreesDead(m, a, Frees(m, a).value); }
  }

  /** No freed number is on the ring again, so none is ever freed twice. */
  lemma NoneFreedOnRing(m: Machine, i: nat)
    requires Inv(m) && i < |m.s.ring|
    ensures m.s.ring[i].id !in m.s.freed
  {
    assert Placed(m.s, i, false);
  }

  // ---- waiting for a turn ----

  /** Task t is at place d of the ring, Ready unless in front. */
  ghost predicate InLine(s: Sched, t: nat, d: nat) {
    d < |s.ring| && Index(s.ring, t) == d && (d > 0 ==> s.ring[d].state.Ready?)
  }

  lemma InLineAt(s: Sched, t: nat, d: nat)
    requires InLine(s, t, d)
    ensures Index(s.ring, t) == d
  {
  }

  lemma NearerBySchedule(m: Machine, leaving: bool, t: nat, d: nat)
    requires Ordered(m.s, leaving) && InLine(m.s, t, d) && d > 0
    ensures var d' := Index(Rescheduled(m).s.ring, t);
      d' < d && InLine(Rescheduled(m).s, t, d')
  {
    ScheduledNearer(m.s, leaving, t);
    PickIs(m.s, leaving);
  }

  lemma NearerByEnd(m: Machine, m': Machine, code: nat, t: nat, d: nat)
    requires Inv(m) && At(m) != Kernel(Forever) && m'.s == Ended(WithCode(m.s, code)) && InLine(m.s, t, d) && d > 0
    ensures var d' := Index(Rescheduled(m').s.ring, t);
      d' < d && InLine(Rescheduled(m').s, t, d')
  {
    EndOrdered(m, code);
    FieldIndex(m.s.ring, m'.s.ring[0], t);
    assert m'.s.ring == m.s.ring[0 := m'.s.ring[0]];
    NearerBySchedule(m', true, t, d);
  }

  /** A step moves a waiting task at least one place up if it schedules, and back by one at most, and
      only if it creates a task. */
  lemma StepDistance(m: Machine, a: Action, t: nat, d: nat)
    requires Inv(m) && Enabled(m, a) && InLine(m.s, t, d) && d > 0
    ensures var d' := Index(Next(m, a).s.ring, t);
      && InLine(Next(m, a).s, t, d')
      && d' + (if Schedules(a) then 1 else 0) <= d + (if Spawns(a) then 1 else 0)
  {
    hide Ordered, Fits, Scheduled, Reaped, InLine, Rescheduled, Freed, Spawned;
    InLineAt(m.s, t, d);
    match a
    case Preempt => NearerBySchedule(m, false, t, d);
    case Yield => NearerBySchedule(Move(m.(kgs := Local), Yielding(At(m).entry, At(m).saved, At(m).why)), false, t, d);
    case Finish => CollectDistance(m, t, d);
    case Exit(code) => NearerByEnd(m, Move(Swapgs(m).(s := Ended(WithCode(m.s, code))), Gone), code, t, d);
    case Fall =>
      assert WithCode(m.s, m.s.ring[0].exitCode) == m.s;
      NearerByEnd(m, Move(m.(s := Ended(m.s)), Gone), m.s.ring[0].exitCode, t, d);
    case Spawn(top, cr3, start) => BornDistance(m, View(m.nextId, Ready, None, top, 0, cr3, 0), t, d);
    case Fork(top, cr3) => BornDistance(m, View(m.nextId, Ready, Some(m.CurrentId()), top, m.Current().fsBase, cr3, 0), t, d);
    case Exec(cr3, _) => ExecDistance(m, a, t, d);
    case SetFs(base) => FieldsDistance(m, m.Current().(fsBase := base), t, d);
    case _ =>
  }

  lemma CollectDistance(m: Machine, t: nat, d: nat)
    requires Inv(m) && Enabled(m, Finish) && InLine(m.s, t, d) && d > 0
    ensures var d' := Index(Next(m, Finish).s.ring, t);
      d' <= d && InLine(Next(m, Finish).s, t, d')
  {
    if At(m).why.Child? { CutIndex(m.s.ring, Index(m.s.ring, At(m).why.id), t); }
  }

  lemma BornDistance(m: Machine, v: View, t: nat, d: nat)
    requires Inv(m) && v.id == m.nextId && InLine(m.s, t, d) && d > 0
    ensures InLine(Spawned(m.s, v), t, d + 1)
  {
    Unused(m);
    SpawnedIndex(m.s, v, t);
  }

  lemma ExecDistance(m: Machine, a: Action, t: nat, d: nat)
    requires Inv(m) && Enabled(m, a) && a.Exec? && InLine(m.s, t, d) && d > 0
    ensures InLine(Next(m, a).s, t, d)
  {
    FieldIndex(m.s.ring, m.Current().(cr3 := a.cr3), t);
  }

  lemma FieldsDistance(m: Machine, v: View, t: nat, d: nat)
    requires Inv(m) && v == m.s.ring[0].(fsBase := v.fsBase, cr3 := v.cr3) && InLine(m.s, t, d) && d > 0
    ensures InLine(SetFront(m, v).s, t, d)
  {
    FieldIndex(m.s.ring, v, t);
  }

  /** How many of the first n actions satisfy schedule or create. */
  function CountSchedules(acts: seq<Action>, n: nat): nat
    requires n <= |acts|
  {
    if n == 0 then 0 else CountSchedules(acts, n - 1) + (if Schedules(acts[n - 1]) then 1 else 0)
  }

  function CountSpawns(acts: seq<Action>, n: nat): nat
    requires n <= |acts|
  {
    if n == 0 then 0 else CountSpawns(acts, n - 1) + (if Spawns(acts[n - 1]) then 1 else 0)
  }

  /** Bounded waiting: a task at distance d at moment j is in front at some moment up to i, if from j
      to i there are at least d calls of schedule() plus one for every task created. */
  lemma {:induction false} BoundedWaiting(run: seq<Machine>, acts: seq<Action>, idleTop: nat, j: nat, i: nat, t: nat, d: nat)
    requires Run(run, acts, idleTop) && j <= i <= |acts| && InLine(run[j].s, t, d)
    ensures (exists k: nat {:trigger run[k]} :: j <= k <= i && InLine(run[k].s, t, 0)) ||
      (exists d': nat :: 0 < d' && InLine(run[i].s, t, d')
        && d' + CountSchedules(acts, i) - CountSchedules(acts, j) <= d + CountSpawns(acts, i) - CountSpawns(acts, j))
  {
    hide InLine, Next;
    if i > j {
      BoundedWaiting(run, acts, idleTop, j, i - 1, t, d);
      if !(exists k: nat {:trigger run[k]} :: j <= k <= i - 1 && InLine(run[k].s, t, 0)) {
        var e: nat :| 0 < e && InLine(run[i - 1].s, t, e)
          && e + CountSchedules(acts, i - 1) - CountSchedules(acts, j) <= d + CountSpawns(acts, i - 1) - CountSpawns(acts, j);
        RunInv(run, acts, idleTop, i - 1);
        assert Enabled(run[i - 1], acts[i - 1]);
        StepDistance(run[i - 1], acts[i - 1], t, e);
        var e' := Index(run[i].s.ring, t);
        assert InLine(run[i].s, t, e');
      }
    } else {
      assert InLine(run[i].s, t, d);
    }
  }

  lemma BoundedWaitingRuns(run: seq<Machine>, acts: seq<Action>, idleTop: nat, j: nat, i: nat, t: nat, d: nat)
    requires Run(run, acts, idleTop) && j <= i <= |acts| && InLine(run[j].s, t, d)
    requires CountSchedules(acts, i) - CountSchedules(acts, j) >= d + CountSpawns(acts, i) - CountSpawns(acts, j)
    ensures exists k: nat {:trigger run[k]} :: j <= k <= i && |run[k].s.ring| > 0 && run[k].CurrentId() == t
  {
    BoundedWaiting(run, acts, idleTop, j, i, t, d);
    var k: nat :| j <= k <= i && InLine(run[k].s, t, 0);
  }
}
