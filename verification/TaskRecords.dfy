/** What a run remembers about a task: the code it exits with, the stack pointer and the TLS base it
    enters user code with, and how long its time slice lasts. */
module TaskRecords {
  import opened Options
  import opened TaskRing
  import opened SyscallProtocol
  import opened StepEffects
  import opened ProtocolRuns

  // ---- exit codes ----

  /** Task t is freed or has ended with this code. */
  ghost predicate EndedWith(s: Sched, t: nat, code: nat) {
    Over(s, t) && forall c | CardOf(s.ring, t) == Some(c) :: c.exitCode == code
  }

  lemma EndedWithStep(m: Machine, a: Action, t: nat, code: nat)
    requires Inv(m) && Enabled(m, a) && EndedWith(m.s, t, code)
    ensures EndedWith(Next(m, a).s, t, code)
  {
    hide Ordered, Fits, Next, CardOf;
    StepEffect(m, a);
    FrontIs(m);
    NextIsNew(m);
  }

  /** The code that a task hands to sys_exit stays with it for as long as it is on the ring, whatever
      anybody does. */
  lemma {:induction false} ExitCode(run: seq<Machine>, acts: seq<Action>, idleTop: nat, j: nat, i: nat)
    requires Run(run, acts, idleTop) && j < i <= |acts| && acts[j].Exit? && |run[j].s.ring| > 0
    ensures EndedWith(run[i].s, run[j].CurrentId(), acts[j].code)
    ensures forall k: nat {:trigger run[i].s.ring[k]} | k < |run[i].s.ring| && run[i].s.ring[k].id == run[j].CurrentId() ::
      run[i].s.ring[k].state.Dead? && run[i].s.ring[k].exitCode == acts[j].code
  {
    hide Ordered, Fits, Next, CardOf, EndedWith;
    var t := run[j].CurrentId();
    RunInv(run, acts, idleTop, i - 1);
    RunInv(run, acts, idleTop, i);
    assert Enabled(run[i - 1], acts[i - 1]);
    if i == j + 1 {
      ExitRecord(run[j], acts[j]);
    } else {
      ExitCode(run, acts, idleTop, j, i - 1);
      EndedWithStep(run[i - 1], acts[i - 1], t, acts[j].code);
    }
    OnRing(run[i], t, acts[j].code);
  }

  lemma ExitRecord(m: Machine, a: Action)
    requires Inv(m) && Enabled(m, a) && a.Exit?
    ensures EndedWith(Next(m, a).s, m.CurrentId(), a.code)
  {
    hide Ordered, Fits, Next, CardOf;
    StepEffect(m, a);
    NotTheZombie(m);
  }

  lemma OnRing(m: Machine, t: nat, code: nat)
    requires Inv(m) && EndedWith(m.s, t, code)
    ensures forall k: nat {:trigger m.s.ring[k]} | k < |m.s.ring| && m.s.ring[k].id == t :: m.s.ring[k].state.Dead? && m.s.ring[k].exitCode == code
  {
    forall k: nat | k < |m.s.ring| && m.s.ring[k].id == t ensures m.s.ring[k].state.Dead? && m.s.ring[k].exitCode == code {
      CardIs(m.s.ring, k);
    }
  }

  /** wait4 reports the low byte of the code in bits 15:8, whatever happened between the exit of the child
      and its collection. */
  lemma ExitStatus(run: seq<Machine>, acts: seq<Action>, idleTop: nat, j: nat, i: nat)
    requires Run(run, acts, idleTop) && j < i < |acts| && acts[j].Exit? && acts[i].Finish? && |run[j].s.ring| > 0
    requires |run[i].s.ring| > 0 && run[i].CurrentId() in run[i].phase && Enabled(run[i], Finish) && At(run[i]).why == Child(run[j].CurrentId())
    ensures var k := Index(run[i].s.ring, run[j].CurrentId());
      && k < |run[i].s.ring| && run[i].s.ring[k].parent == Some(run[i].CurrentId())
      && run[i].s.ring[k].exitCode % 256 * 256 == acts[j].code % 256 * 256
  {
    RunInv(run, acts, idleTop, i);
    ExitCode(run, acts, idleTop, j, i);
    hide Ordered, Discipline, Synced;
    ChildStays(run[i], 0);
  }

  // ---- waiting for a child ----

  predicate WaitsFor(p: Phase, why: Why) { (p.Waiting? || p.Yielding?) && p.why == why }

  /** A task that waits goes on waiting for the same thing until its wait is over. */
  lemma WaitStep(m: Machine, a: Action, t: nat, why: Why)
    requires Inv(m) && Enabled(m, a) && t in m.phase && t < m.nextId && WaitsFor(m.phase[t], why)
    requires m.CurrentId() == t ==> !a.Finish?
    ensures t in Next(m, a).phase && WaitsFor(Next(m, a).phase[t], why) && t < Next(m, a).nextId
  {
    hide Ordered, Fits, Scheduled, Reaped;
    if m.CurrentId() == t { FrontLives(m, a); }
  }

  /** A task inside a wait does nothing but wait. */
  lemma FrontLives(m: Machine, a: Action)
    requires |m.s.ring| > 0 && m.CurrentId() in m.phase && Enabled(m, a) && (At(m).Waiting? || At(m).Yielding?)
    ensures a.Yield? || a.Resume? || a.Finish?
  {
  }

  /** Task t ends no wait strictly between steps j and i. */
  ghost predicate NoFinish(run: seq<Machine>, acts: seq<Action>, j: nat, i: nat, t: nat)
    requires i <= |acts| <= |run|
  {
    forall k {:trigger acts[k]} | j < k < i && |run[k].s.ring| > 0 && run[k].CurrentId() == t :: !acts[k].Finish?
  }

  lemma {:induction false} WaitStays(run: seq<Machine>, acts: seq<Action>, idleTop: nat, j: nat, i: nat)
    requires Run(run, acts, idleTop) && j < i <= |acts| && acts[j].Block? && |run[j].s.ring| > 0 && NoFinish(run, acts, j, i, run[j].CurrentId())
    ensures var t := run[j].CurrentId(); t in run[i].phase && WaitsFor(run[i].phase[t], acts[j].why) && t < run[i].nextId
  {
    hide Ordered, Fits;
    RunInv(run, acts, idleTop, i - 1);
    assert Enabled(run[i - 1], acts[i - 1]) && run[i] == Next(run[i - 1], acts[i - 1]);
    if i == j + 1 {
      FrontNumber(run[j]);
    } else {
      WaitStays(run, acts, idleTop, j, i - 1);
      WaitStep(run[i - 1], acts[i - 1], run[j].CurrentId(), acts[j].why);
    }
  }

  lemma CollectStep(m: Machine, a: Action, c: nat)
    requires |m.s.ring| > 0 && m.CurrentId() in m.phase && Enabled(m, a) && a.Finish? && At(m).why == Child(c)
    ensures 0 < Index(m.s.ring, c) < |m.s.ring| && m.s.ring[Index(m.s.ring, c)].state.Dead? && c in Next(m, a).s.freed
  {
  }

  /** wait4 comes back only when the child it was called for has ended, and then the child is gone. */
  lemma ChildWaited(run: seq<Machine>, acts: seq<Action>, idleTop: nat, j: nat, i: nat, c: nat)
    requires Run(run, acts, idleTop) && j < i < |acts| && acts[j] == Block(Child(c)) && acts[i].Finish? && |run[j].s.ring| > 0
    requires |run[i].s.ring| > 0 && run[i].CurrentId() == run[j].CurrentId() && NoFinish(run, acts, j, i, run[j].CurrentId())
    ensures var k := Index(run[i].s.ring, c);
      0 < k < |run[i].s.ring| && run[i].s.ring[k].state.Dead? && run[i].s.ring[k].parent == Some(run[j].CurrentId())
    ensures c in run[i + 1].s.freed && c !in run[i].s.freed && Index(run[i + 1].s.ring, c) == |run[i + 1].s.ring|
  {
    hide Ordered, Fits, Discipline, Synced, CardOf;
    RunInv(run, acts, idleTop, i);
    RunInv(run, acts, idleTop, i + 1);
    WaitStays(run, acts, idleTop, j, i);
    assert Enabled(run[i], acts[i]);
    ChildStays(run[i], 0);
    var k := Index(run[i].s.ring, c);
    NoneFreedOnRing(run[i], k);
    CollectStep(run[i], acts[i], c);
    if Index(run[i + 1].s.ring, c) < |run[i + 1].s.ring| { NoneFreedOnRing(run[i + 1], Index(run[i + 1].s.ring, c)); }
  }

  // ---- entering user code ----

  /** A task in user code stays there, with this stack pointer, until it makes a system call. */
  lemma Ring3Step(m: Machine, a: Action, t: nat, r: nat)
    requires Inv(m) && Enabled(m, a) && t in m.phase && t < m.nextId && m.phase[t] == Ring3(r)
    requires m.CurrentId() == t ==> !a.Trap?
    ensures t in Next(m, a).phase && Next(m, a).phase[t] == Ring3(r) && t < Next(m, a).nextId
  {
    hide Ordered, Fits, Scheduled, Reaped;
  }

  /** The stack pointer that a step takes into user code. */
  function Entered(a: Action): Option<nat> {
    match a
    case Exec(_, rsp) => Some(rsp)
    case EnterRing3(rsp) => Some(rsp)
    case _ => None
  }

  lemma {:induction false} UserStays(run: seq<Machine>, acts: seq<Action>, idleTop: nat, j: nat, i: nat)
    requires Run(run, acts, idleTop) && j < i <= |acts| && Entered(acts[j]).Some? && |run[j].s.ring| > 0
    requires NoTrap(run, acts, j, i, run[j].CurrentId())
    ensures var t := run[j].CurrentId(); t in run[i].phase && run[i].phase[t] == Ring3(Entered(acts[j]).value) && t < run[i].nextId
  {
    hide Ordered, Fits;
    RunInv(run, acts, idleTop, i - 1);
    assert Enabled(run[i - 1], acts[i - 1]) && run[i] == Next(run[i - 1], acts[i - 1]);
    if i == j + 1 {
      FrontNumber(run[j]);
    } else {
      UserStays(run, acts, idleTop, j, i - 1);
      Ring3Step(run[i - 1], acts[i - 1], run[j].CurrentId(), Entered(acts[j]).value);
    }
  }

  /** A program makes its first system call on the stack that execve or its loader gave it. */
  lemma FirstCall(run: seq<Machine>, acts: seq<Action>, idleTop: nat, j: nat, i: nat)
    requires Run(run, acts, idleTop) && j < i < |acts| && Entered(acts[j]).Some? && acts[i].Trap? && |run[j].s.ring| > 0
    requires |run[i].s.ring| > 0 && run[i].CurrentId() == run[j].CurrentId() && NoTrap(run, acts, j, i, run[j].CurrentId())
    ensures run[i + 1].userRsp == Entered(acts[j]).value
  {
    UserStays(run, acts, idleTop, j, i);
    assert Enabled(run[i], acts[i]);
  }

  // ---- the TLS base ----

  /** Nobody touches the record of a live task that is not in front. */
  lemma RecordStep(m: Machine, a: Action, t: nat, c: Card)
    requires Inv(m) && Enabled(m, a) && CardOf(m.s.ring, t) == Some(c) && !c.dead && t < m.nextId && m.CurrentId() != t
    ensures CardOf(Next(m, a).s.ring, t) == Some(c) && t < Next(m, a).nextId
  {
    hide Ordered, Fits, Next, CardOf;
    StepEffect(m, a);
    if Frees(m, a) == Some(t) { FreesDead(m, a, t); }
    NumbersGrow(m, a);
  }

  lemma NumbersGrow(m: Machine, a: Action)
    requires |m.s.ring| > 0 && m.CurrentId() in m.phase && Enabled(m, a)
    ensures m.nextId <= Next(m, a).nextId
  {
  }

  /** Task t is not in front strictly between moments k and i. */
  ghost predicate Waits(run: seq<Machine>, k: nat, i: nat, t: nat)
    requires i <= |run|
  {
    forall j {:trigger run[j]} | k < j < i && |run[j].s.ring| > 0 :: run[j].CurrentId() != t
  }

  lemma {:induction false} ChildRecord(run: seq<Machine>, acts: seq<Action>, idleTop: nat, k: nat, i: nat)
    requires Run(run, acts, idleTop) && k < i <= |acts| && acts[k].Fork? && |run[k].s.ring| > 0 && Waits(run, k, i, run[k].nextId)
    ensures CardOf(run[i].s.ring, run[k].nextId) == Some(Card(Some(run[k].CurrentId()), acts[k].top, run[k].fs, acts[k].cr3, 0, false))
    ensures run[k].nextId < run[i].nextId
  {
    hide Ordered, Fits, Next, CardOf, Effect;
    RunInv(run, acts, idleTop, i - 1);
    assert Enabled(run[i - 1], acts[i - 1]) && run[i] == Next(run[i - 1], acts[i - 1]);
    if i == k + 1 {
      ForkRecord(run[k], acts[k]);
    } else {
      ChildRecord(run, acts, idleTop, k, i - 1);
      RecordStep(run[i - 1], acts[i - 1], run[k].nextId, Card(Some(run[k].CurrentId()), acts[k].top, run[k].fs, acts[k].cr3, 0, false));
    }
  }

  lemma ForkRecord(m: Machine, a: Action)
    requires Inv(m) && Enabled(m, a) && a.Fork?
    ensures CardOf(Next(m, a).s.ring, m.nextId) == Some(Card(Some(m.CurrentId()), a.top, m.fs, a.cr3, 0, false)) && m.nextId < Next(m, a).nextId
  {
    hide Ordered, Fits, CardOf;
    StepEffect(m, a);
    NextIsNew(m);
  }

  /** When the child of a fork comes to the front for the first time, the processor has the TLS base that
      the parent's had at the fork, the child's own kernel stack and the child's own page tables. */
  lemma ChildStarts(run: seq<Machine>, acts: seq<Action>, idleTop: nat, k: nat, i: nat)
    requires Run(run, acts, idleTop) && k < i <= |acts| && acts[k].Fork? && |run[k].s.ring| > 0 && Waits(run, k, i, run[k].nextId)
    requires |run[i].s.ring| > 0 && run[i].CurrentId() == run[k].nextId
    ensures run[i].fs == run[k].fs && run[i].kernelRsp == run[i].rsp0 == acts[k].top && (acts[k].cr3 != 0 ==> run[i].cr3 == acts[k].cr3)
  {
    RunInv(run, acts, idleTop, i);
    ChildRecord(run, acts, idleTop, k, i);
    FrontIs(run[i]);
    assert Enabled(run[k], acts[k]);
  }

  // ---- time slices ----

  function CountTicks(acts: seq<Action>, n: nat): (c: nat)
    requires n <= |acts|
  {
    if n == 0 then 0 else CountTicks(acts, n - 1) + (if acts[n - 1].Tick? then 1 else 0)
  }

  lemma {:induction false} TicksGrow(acts: seq<Action>, j: nat, i: nat)
    requires j <= i <= |acts|
    ensures CountTicks(acts, j) <= CountTicks(acts, i)
    decreases i
  {
    if j < i { TicksGrow(acts, j, i - 1); }
  }

  /** No call of schedule() strictly between steps j and i. */
  ghost predicate NoSchedule(acts: seq<Action>, j: nat, i: nat)
    requires i <= |acts|
  {
    forall k {:trigger acts[k]} | j < k < i :: !Schedules(acts[k])
  }

  lemma SliceStarts(m: Machine, a: Action)
    requires Inv(m) && Enabled(m, a) && Schedules(a)
    ensures Next(m, a).ticksLeft == 20 && !Next(m, a).resched
  {
    hide Ordered, Fits, Scheduled, Reaped;
    StepSchedules(m, a);
  }

  lemma StepSchedules(m: Machine, a: Action)
    requires Inv(m) && Enabled(m, a) && Schedules(a)
    ensures match a
      case Preempt => Schedulable(m.s)
      case Yield => Schedulable(m.s)
      case Exit(code) => Schedulable(Ended(WithCode(m.s, code)))
      case Fall => Schedulable(Ended(m.s))
      case _ => true
  {
    match a
    case Exit(code) =>
      EndOrdered(m, code);
      PickIs(Ended(WithCode(m.s, code)), true);
    case Fall =>
      assert WithCode(m.s, m.s.ring[0].exitCode) == m.s;
      EndOrdered(m, m.s.ring[0].exitCode);
      PickIs(Ended(m.s), true);
    case _ => PickIs(m.s, false);
  }

  lemma SliceStep(m: Machine, a: Action)
    requires |m.s.ring| > 0 && m.CurrentId() in m.phase && Enabled(m, a) && !Schedules(a)
    ensures var m' := Next(m, a);
      if a.Tick? then m'.ticksLeft == (if m.ticksLeft > 0 then m.ticksLeft - 1 else 0) && m'.resched == (m.resched || m.ticksLeft == 1)
      else m'.ticksLeft == m.ticksLeft && m'.resched == m.resched
  {
  }

  /** After a call of schedule() preemption is asked for exactly from the twentieth tick on. */
  lemma {:induction false} TimeSlice(run: seq<Machine>, acts: seq<Action>, idleTop: nat, j: nat, i: nat)
    requires Run(run, acts, idleTop) && j < i <= |acts| && Schedules(acts[j]) && NoSchedule(acts, j, i)
    ensures CountTicks(acts, j) <= CountTicks(acts, i)
    ensures var ticks := CountTicks(acts, i) - CountTicks(acts, j);
      run[i].ticksLeft == (if ticks < 20 then 20 - ticks else 0) && (run[i].resched <==> ticks >= 20)
  {
    hide Ordered, Fits, Next, Discipline, Synced;
    TicksGrow(acts, j, i);
    RunInv(run, acts, idleTop, i - 1);
    assert Enabled(run[i - 1], acts[i - 1]) && run[i] == Next(run[i - 1], acts[i - 1]);
    if i == j + 1 {
      SliceStarts(run[j], acts[j]);
    } else {
      TimeSlice(run, acts, idleTop, j, i - 1);
      SliceStep(run[i - 1], acts[i - 1]);
    }
  }
}
