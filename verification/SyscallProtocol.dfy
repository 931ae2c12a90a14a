/** System calls, switches and the registers that must agree with the running task, as a machine
    that takes one step at a time. Between two steps anything that may happen to the machine is
    another step, so a run covers every interleaving. */
module SyscallProtocol {
  import opened Options
  import opened TaskRing

  /** What GS_BASE or KernelGSBase points at: the per-CPU block, or whatever user code had. */
  datatype Gs = Local | User

  /** How a task starts: boot and idle never end; a kernel task runs a function; an image task loads
      a program and enters ring 3; a forked task enters ring 3 with its parent's stack pointer. */
  datatype Start = Forever | Plain | Image | Forked(rsp: nat)

  /** What a blocked call waits for: a line of input, or the end of a child. */
  datatype Why = Line | Child(id: nat)

  /** Where a task is. `entry` is the user stack pointer at the entry of its current system call,
      `saved` what a blocking handler has put aside. */
  datatype Phase =
    | Kernel(start: Start)
    | Ring3(rsp: nat)
    | Call(entry: nat)
    | Waiting(entry: nat, saved: nat, why: Why)
    | Yielding(entry: nat, saved: nat, why: Why)
    | Gone

  datatype Machine = Machine(
    s: Sched, phase: map<nat, Phase>, nextId: nat,
    gs: Gs, kgs: Gs, userRsp: nat,
    kernelRsp: nat, rsp0: nat, fs: nat, cr3: nat,
    ticksLeft: nat, resched: bool)
  {
    function Current(): View requires |s.ring| > 0 { s.ring[0] }
    function CurrentId(): nat requires |s.ring| > 0 { s.ring[0].id }
  }

  // ---- pieces of steps ----

  function Swapgs(m: Machine): Machine { m.(gs := m.kgs, kgs := m.gs) }

  predicate Schedulable(s: Sched) {
    && |s.ring| > 0 && (s.zombie.Some? ==> Index(s.ring, s.zombie.value) < |s.ring|)
    && |Reaped(s).ring| > 0 && Pick(Reaped(s).ring, s.idle) < |Reaped(s).ring|
  }

  /** schedule(): the ring turns, and if it does, the registers follow the task in front. Every
      machine that can be reached is schedulable (AlwaysSchedulable). */
  function Rescheduled(m: Machine): Machine {
    if !Schedulable(m.s) then m else
    var s' := Scheduled(m.s);
    var m' := m.(s := s', ticksLeft := 20, resched := false);
    if Pick(Reaped(m.s).ring, m.s.idle) == 0 then m' else
    var t := s'.ring[0];
    m'.(kernelRsp := if t.top != 0 then t.top else m.kernelRsp,
        rsp0 := if t.top != 0 then t.top else m.rsp0,
        fs := t.fsBase,
        cr3 := if t.cr3 != 0 then t.cr3 else m.cr3)
  }

  function At(m: Machine): Phase
    requires |m.s.ring| > 0 && m.CurrentId() in m.phase
  {
    m.phase[m.CurrentId()]
  }

  function Move(m: Machine, p: Phase): Machine
    requires |m.s.ring| > 0
  {
    m.(phase := m.phase[m.CurrentId() := p])
  }

  function Born(m: Machine, t: View, start: Start): Machine
    requires |m.s.ring| > 0
  {
    m.(s := Spawned(m.s, t), phase := m.phase[t.id := Kernel(start)], nextId := m.nextId + 1)
  }

  function SetFront(m: Machine, t: View): Machine
    requires |m.s.ring| > 0
  {
    m.(s := m.s.(ring := m.s.ring[0 := t]))
  }

  // ---- the steps ----

  datatype Action =
    | Tick                          // timer interrupt, outside system calls
    | Preempt                       // end of an interrupt, outside system calls
    | EnterRing3(rsp: nat)          // iretq of an image task, or of a forked child
    | Trap                          // syscall instruction and entry stub
    | Return                        // exit stub and sysret
    | Block(why: Why)               // a handler saves user_rsp and starts to wait
    | Yield                         // yield_blocking, up to the switch
    | Resume                        // yield_blocking, after the switch back
    | Finish                        // the wait is over: user_rsp restored, a dead child collected
    | Exit(code: nat)               // sys_exit
    | Fall                          // the entry function returned into the trampoline
    | Spawn(top: nat, cr3: nat, start: Start)
    | Fork(top: nat, cr3: nat)
    | Exec(cr3: nat, rsp: nat)      // a successful execve
    | SetFs(base: nat)              // arch_prctl

  /** Interrupts are open. */
  predicate Open(p: Phase) { p.Kernel? || p.Ring3? }

  predicate WaitOver(m: Machine, why: Why) {
    match why
    case Line => true
    case Child(c) =>
      var i := Index(m.s.ring, c);
      0 < i < |m.s.ring| && m.s.ring[i].state.Dead?
  }

  predicate CanWait(m: Machine, why: Why)
    requires |m.s.ring| > 0
  {
    match why
    case Line => true
    case Child(c) =>
      var i := Index(m.s.ring, c);
      i < |m.s.ring| && m.s.ring[i].parent == Some(m.CurrentId())
  }

  predicate Enabled(m: Machine, a: Action)
    requires |m.s.ring| > 0 && m.CurrentId() in m.phase
  {
    var p := At(m);
    match a
    case Tick => Open(p)
    case Preempt => Open(p) && m.resched
    case EnterRing3(rsp) => p.Kernel? && (p.start.Image? || p.start == Forked(rsp))
    case Trap => p.Ring3?
    case Return => p.Call?
    case Block(why) => p.Call? && CanWait(m, why)
    case Yield => p.Waiting? && (p.why.Child? ==> !WaitOver(m, p.why))
    case Resume => p.Yielding?
    case Finish => p.Waiting? && WaitOver(m, p.why)
    case Exit(_) => p.Call?
    case Fall => p.Kernel? && !p.start.Forever?
    case Spawn(top, _, start) => (p.Call? || p.Kernel?) && top != 0 && (start.Plain? || start.Image?)
    case Fork(top, _) => p.Call? && top != 0
    case Exec(_, _) => p.Call?
    case SetFs(_) => p.Call?
  }

  function Next(m: Machine, a: Action): Machine
    requires |m.s.ring| > 0 && m.CurrentId() in m.phase && Enabled(m, a)
  {
    var p := At(m);
    match a
    case Tick =>
      var left := if m.ticksLeft > 0 then m.ticksLeft - 1 else 0;
      m.(ticksLeft := left, resched := m.resched || m.ticksLeft == 1)
    case Preempt => Rescheduled(m)
    case EnterRing3(rsp) => Move(m, Ring3(rsp))
    case Trap => Move(Swapgs(m).(userRsp := p.rsp), Call(p.rsp))
    case Return => Swapgs(Move(m, Ring3(m.userRsp)))
    case Block(why) => Move(m, Waiting(p.entry, m.userRsp, why))
    case Yield => Rescheduled(Move(m.(kgs := Local), Yielding(p.entry, p.saved, p.why)))
    case Resume => Move(m.(gs := Local), Waiting(p.entry, p.saved, p.why))
    case Finish =>
      var m' := Move(m.(userRsp := p.saved), Call(p.entry));
      if p.why.Line? then m' else m'.(s := Freed(m.s, Index(m.s.ring, p.why.id)))
    case Exit(code) => Rescheduled(Move(Swapgs(m).(s := Ended(WithCode(m.s, code))), Gone))
    case Fall => Rescheduled(Move(m.(s := Ended(m.s)), Gone))
    case Spawn(top, cr3, start) => Born(m, View(m.nextId, Ready, None, top, 0, cr3, 0), start)
    case Fork(top, cr3) =>
      Born(m, View(m.nextId, Ready, Some(m.CurrentId()), top, m.Current().fsBase, cr3, 0), Forked(p.entry))
    case Exec(cr3, rsp) => Swapgs(Move(Replaced(m, cr3), Ring3(rsp)))
    case SetFs(base) => SetFront(m, m.Current().(fsBase := base)).(fs := base)
  }

  /** The new address space is loaded before the old one is destroyed. */
  function Replaced(m: Machine, cr3: nat): Machine
    requires |m.s.ring| > 0
  {
    var m' := SetFront(m, m.Current().(cr3 := cr3)).(cr3 := cr3);
    m'.(s := m'.s.(released := Release(m.s.released, m.Current().cr3)))
  }

  function WithCode(s: Sched, code: nat): Sched
    requires |s.ring| > 0
  {
    s.(ring := s.ring[0 := s.ring[0].(exitCode := code)])
  }

  // ---- what holds at every step ----

  /** What the i-th task of the ring may be doing. */
  ghost predicate Fits(m: Machine, i: nat)
    requires i < |m.s.ring|
  {
    var t := m.s.ring[i];
    && t.id in m.phase && t.id < m.nextId
    && var p := m.phase[t.id];
    && (t.state.Dead? <==> p.Gone?)
    && (t.id == m.s.idle ==> p == Kernel(Forever))
    && (t.top == 0 ==> p == Kernel(Forever))
    && (i > 0 ==> !p.Call? && !p.Waiting?)
    && (p.Waiting? || p.Yielding? ==> p.saved == p.entry && (p.why.Child? ==> Watched(m, t.id, p.why.id)))
  }

  /** c is on the ring, a child of id. */
  ghost predicate Watched(m: Machine, id: nat, c: nat) {
    var i := Index(m.s.ring, c);
    i < |m.s.ring| && m.s.ring[i].parent == Some(id)
  }

  /** The swapgs discipline: with the per-CPU block behind swapgs whenever user code may run or a
      switch may happen, and in front whenever a stub is about to use it. */
  ghost predicate Discipline(m: Machine)
    requires |m.s.ring| > 0 && m.CurrentId() in m.phase
  {
    match At(m)
    case Call(e) => m.gs == Local && m.userRsp == e
    case Waiting(_, _, _) => m.gs == Local
    case _ => m.kgs == Local
  }

  /** The registers are those of the task in front. */
  ghost predicate Synced(m: Machine)
    requires |m.s.ring| > 0
  {
    && m.fs == m.Current().fsBase
    && (m.Current().top != 0 ==> m.kernelRsp == m.rsp0 == m.Current().top)
    && (m.Current().cr3 != 0 ==> m.cr3 == m.Current().cr3)
  }

  ghost predicate Inv(m: Machine) {
    && |m.s.ring| > 0 && Ordered(m.s, false)
    && (forall i: nat {:trigger Fits(m, i)} | i < |m.s.ring| :: Fits(m, i))
    && (forall n {:trigger n in m.s.freed} | n in m.s.freed :: n < m.nextId)
    && m.CurrentId() in m.phase && Discipline(m) && Synced(m)
  }

  /** The machine as start-up leaves it: the boot task runs, idle is ready. */
  function Start0(idleTop: nat): Machine {
    Machine(Booted(0, 1, idleTop), map[0 := Kernel(Forever), 1 := Kernel(Forever)], 2, User, Local, 0, 0, 0, 0, 0, 20, false)
  }

  lemma StartInv(idleTop: nat)
    ensures Inv(Start0(idleTop))
  {
    BootedOrdered(0, 1, idleTop);
    assert Fits(Start0(idleTop), 0) && Fits(Start0(idleTop), 1);
  }

  // ---- each step keeps it ----

  /** Steps that leave the ring alone and touch only the running task's phase. */
  lemma MoveInv(m: Machine, m': Machine, p: Phase)
    requires Inv(m) && m'.s == m.s && m'.phase == m.phase[m.CurrentId() := p] && m'.nextId == m.nextId
    requires m'.fs == m.fs && m'.kernelRsp == m.kernelRsp && m'.rsp0 == m.rsp0 && m'.cr3 == m.cr3
    requires !p.Gone? && (At(m) == Kernel(Forever) ==> p == At(m)) && Discipline(m')
    requires p.Waiting? || p.Yielding? ==> p.saved == p.entry && (p.why.Child? ==> Watched(m, m.CurrentId(), p.why.id))
    ensures Inv(m')
  {
    assert Placed(m.s, 0, false);
    forall i: nat | i < |m'.s.ring| ensures Fits(m', i) {
      assert Fits(m, i) && Fits(m, 0);
    }
  }

  /** Every task fits its place. */
  ghost predicate AllFit(m: Machine) {
    forall i: nat {:trigger Fits(m, i)} | i < |m.s.ring| :: Fits(m, i)
  }

  /** Nobody waits for the k-th task. */
  ghost predicate Unwatched(m: Machine, k: nat)
    requires k < |m.s.ring|
  {
    forall i: nat {:trigger Fits(m, i)} | i < |m.s.ring| && m.s.ring[i].id in m.phase ::
      var p := m.phase[m.s.ring[i].id];
      p.Waiting? || p.Yielding? ==> p.why != Child(m.s.ring[k].id)
  }

  lemma FitsFreed(m: Machine, k: nat, zombie: Option<nat>)
    requires AllFit(m) && Distinct(m.s.ring) && k < |m.s.ring| && k > 0 && Unwatched(m, k)
    ensures AllFit(m.(s := Freed(m.s, k).(zombie := zombie)))
  {
    var m' := m.(s := Freed(m.s, k).(zombie := zombie));
    forall i: nat | i < |m'.s.ring| ensures Fits(m', i) {
      var i0: nat := if i < k then i else i + 1;
      assert m'.s.ring[i] == m.s.ring[i0];
      assert Fits(m, i0);
      var p := m.phase[m.s.ring[i0].id];
      if (p.Waiting? || p.Yielding?) && p.why.Child? { WatchedFreed(m, k, zombie, m.s.ring[i0].id, p.why.id); }
    }
  }

  lemma WatchedFreed(m: Machine, k: nat, zombie: Option<nat>, id: nat, c: nat)
    requires Distinct(m.s.ring) && k < |m.s.ring| && Watched(m, id, c) && m.s.ring[k].id != c
    ensures Watched(m.(s := Freed(m.s, k).(zombie := zombie)), id, c)
  {
    CutIndex(m.s.ring, k, c);
  }

  /** A task without a parent has nobody waiting for it. */
  lemma OrphanUnwatched(m: Machine, k: nat)
    requires AllFit(m) && Distinct(m.s.ring) && k < |m.s.ring| && m.s.ring[k].parent.None?
    ensures Unwatched(m, k)
  {
    IndexIs(m.s.ring, m.s.ring[k].id, k);
    forall i: nat | i < |m.s.ring| && m.s.ring[i].id in m.phase
      ensures var p := m.phase[m.s.ring[i].id];
        p.Waiting? || p.Yielding? ==> p.why != Child(m.s.ring[k].id)
    {
      assert Fits(m, i);
    }
  }

  lemma FitsReaped(m: Machine, leaving: bool)
    requires AllFit(m) && Ordered(m.s, leaving)
    ensures AllFit(m.(s := Reaped(m.s))) && Ordered(Reaped(m.s), leaving) && Reaped(m.s).ring[0] == m.s.ring[0]
    ensures forall n | n in Reaped(m.s).freed :: n in m.s.freed || exists i: nat :: i < |m.s.ring| && m.s.ring[i].id == n
  {
    ReapedOrdered(m.s, leaving);
    if m.s.zombie.Some? && m.s.zombie.value != m.s.ring[0].id {
      var z := Index(m.s.ring, m.s.zombie.value);
      OrphanUnwatched(m, z);
      FitsFreed(m, z, None);
    }
  }

  lemma FitsSwitch(m: Machine, leaving: bool, k: nat, m': Machine)
    requires AllFit(m) && Ordered(m.s, leaving) && 0 < k < |m.s.ring| && m.s.ring[k].state.Ready?
    requires m.CurrentId() in m.phase && !At(m).Call? && !At(m).Waiting?
    requires m'.s == m.s.(ring := SwitchTo(m.s.ring, k)) && m'.phase == m.phase && m'.nextId == m.nextId
    ensures AllFit(m') && Ordered(m'.s, false)
    ensures m'.CurrentId() in m'.phase && !At(m').Call? && !At(m').Waiting?
  {
    SwitchOrdered(m.s, k, leaving);
    SwitchMoves(m.s.ring, k);
    assert Fits(m, k) && Turned(k, k, |m.s.ring|) == 0 && m'.s.ring[0].id == m.s.ring[k].id;
    var n := |m.s.ring|;
    forall i: nat | i < n ensures Fits(m', i) {
      var i0: nat := if i < n - k then i + k else i + k - n;
      assert Fits(m, i0) && Placed(m.s, i0, leaving);
      assert m'.s.ring[Turned(i0, k, n)].id == m.s.ring[i0].id;
      var p := m.phase[m.s.ring[i0].id];
      if (p.Waiting? || p.Yielding?) && p.why.Child? { WatchedSwitch(m, k, m', m.s.ring[i0].id, p.why.id); }
    }
  }

  lemma WatchedSwitch(m: Machine, k: nat, m': Machine, id: nat, c: nat)
    requires Distinct(m.s.ring) && 0 < k < |m.s.ring| && Watched(m, id, c)
    requires m'.s == m.s.(ring := SwitchTo(m.s.ring, k))
    ensures Watched(m', id, c)
  {
    SwitchIndex(m.s.ring, k, c);
    SwitchMoves(m.s.ring, k);
    var i := Index(m.s.ring, c);
    assert m.s.ring[i].id == c;
  }

  /** A switch may happen when the per-CPU block is behind swapgs and the task in front is neither
      inside a stub nor at a test of a blocking loop. */
  ghost predicate AtSwitch(m: Machine, leaving: bool) {
    && Ordered(m.s, leaving) && AllFit(m) && (forall n {:trigger n in m.s.freed} | n in m.s.freed :: n < m.nextId)
    && m.CurrentId() in m.phase && !At(m).Call? && !At(m).Waiting?
    && m.kgs == Local && Synced(m)
  }

  /** schedule() re-establishes everything, for whatever task comes to the front: in particular its
      system call entry and exit will find the per-CPU block, and the registers are its own. */
  lemma SwitchInv(m: Machine, leaving: bool)
    requires AtSwitch(m, leaving)
    ensures Schedulable(m.s) && Inv(Rescheduled(m))
  {
    hide Ordered, SwitchTo, Reaped, Pick, Scheduled, Fits;
    FitsReaped(m, leaving);
    ScheduledIs(m.s, leaving);
    PickIs(m.s, leaving);
    var m1 := m.(s := Reaped(m.s));
    var k := FirstReady(m1.s.ring, 1);
    FreedBelow(m, leaving);
    var m' := Rescheduled(m);
    if k < |m1.s.ring| {
      FitsSwitch(m1, leaving, k, m');
    } else {
      FitsAgain(m1, m');
    }
  }

  lemma PickIs(s: Sched, leaving: bool)
    requires Ordered(s, leaving)
    ensures Schedulable(s) && (Pick(Reaped(s).ring, s.idle) == 0 <==> FirstReady(Reaped(s).ring, 1) == |Reaped(s).ring|)
  {
    ReapedOrdered(s, leaving);
    PickIsReady(Reaped(s), leaving);
    assert Placed(Reaped(s), 0, leaving);
  }

  lemma FreedBelow(m: Machine, leaving: bool)
    requires AllFit(m) && Ordered(m.s, leaving) && (forall n {:trigger n in m.s.freed} | n in m.s.freed :: n < m.nextId)
    ensures forall n {:trigger n in Reaped(m.s).freed} | n in Reaped(m.s).freed :: n < m.nextId
  {
    FitsReaped(m, leaving);
    forall i: nat | i < |m.s.ring| ensures m.s.ring[i].id < m.nextId { assert Fits(m, i); }
  }

  lemma FitsAgain(m: Machine, m': Machine)
    requires AllFit(m) && m'.s == m.s && m'.phase == m.phase && m'.nextId == m.nextId
    ensures AllFit(m')
  {
    forall i: nat | i < |m'.s.ring| ensures Fits(m', i) { assert Fits(m, i); }
  }

  /** Storing into fields of the running task that no other task looks at. */
  lemma FrontFields(m: Machine, t: View)
    requires Ordered(m.s, false) && AllFit(m) && t == m.s.ring[0].(fsBase := t.fsBase, cr3 := t.cr3, exitCode := t.exitCode)
    ensures Ordered(SetFront(m, t).s, false) && AllFit(SetFront(m, t))
  {
    var m' := SetFront(m, t);
    FrontOrdered(m.s, t);
    forall i: nat | i < |m'.s.ring| ensures Fits(m', i) {
      assert Fits(m, i);
      var p := m.phase[m.s.ring[i].id];
      if (p.Waiting? || p.Yielding?) && p.why.Child? { FieldIndex(m.s.ring, t, p.why.id); }
    }
  }

  /** A new task changes nothing for the others. */
  lemma BornInv(m: Machine, t: View, start: Start)
    requires Inv(m) && t.id == m.nextId && t.state.Ready? && t.top != 0 && !start.Forever?
    ensures Inv(Born(m, t, start))
  {
    var m' := Born(m, t, start);
    Unused(m);
    SpawnedOrdered(m.s, t);
    forall i: nat | i < |m'.s.ring| ensures Fits(m', i) {
      if i != 1 {
        var i0: nat := if i == 0 then 0 else i - 1;
        assert Fits(m, i0);
        var p := m.phase[m.s.ring[i0].id];
        if (p.Waiting? || p.Yielding?) && p.why.Child? { BornWatched(m, t, start, m.s.ring[i0].id, p.why.id); }
      } else {
        IndexIs(m.s.ring, m.s.idle, Index(m.s.ring, m.s.idle));
        assert Fits(m, Index(m.s.ring, m.s.idle));
      }
    }
    assert Fits(m, 0);
  }

  lemma BornWatched(m: Machine, t: View, start: Start, id: nat, c: nat)
    requires Ordered(m.s, false) && Index(m.s.ring, t.id) == |m.s.ring| && Watched(m, id, c)
    ensures Watched(Born(m, t, start), id, c)
  {
    SpawnedIndex(m.s, t, c);
  }

  /** The next number is on no ring and was never freed. */
  lemma Unused(m: Machine)
    requires AllFit(m) && (forall n {:trigger n in m.s.freed} | n in m.s.freed :: n < m.nextId)
    ensures Index(m.s.ring, m.nextId) == |m.s.ring| && m.nextId !in m.s.freed
  {
    forall i: nat | i < |m.s.ring| ensures m.s.ring[i].id < m.nextId { assert Fits(m, i); }
  }

  /** The end of a task: it is marked, its phase is over, and the per-CPU block is behind swapgs. */
  lemma EndInv(m: Machine, m': Machine, code: nat)
    requires Inv(m) && At(m) != Kernel(Forever) && m'.kgs == Local
    requires m'.s == Ended(WithCode(m.s, code)) && m'.phase == m.phase[m.CurrentId() := Gone] && m'.nextId == m.nextId
    requires m'.fs == m.fs && m'.kernelRsp == m.kernelRsp && m'.rsp0 == m.rsp0 && m'.cr3 == m.cr3
    ensures AtSwitch(m', true)
  {
    var t := m.s.ring[0].(exitCode := code);
    FrontFields(m, t);
    var m1 := SetFront(m, t);
    assert Fits(m, 0) && Fits(m1, 0);
    EndedOrdered(m1.s);
    forall i: nat | i < |m'.s.ring| ensures Fits(m', i) {
      assert Fits(m1, i) && Placed(m'.s, i, true);
      var p := m.phase[m1.s.ring[i].id];
      if i > 0 && p.Yielding? && p.why.Child? { FieldIndex(m1.s.ring, m'.s.ring[0], p.why.id); }
    }
  }

  /** Collecting a dead child: only its parent was waiting for it. */
  lemma CollectInv(m: Machine, c: nat)
    requires Inv(m) && At(m).Call? && 0 < Index(m.s.ring, c) < |m.s.ring| && m.s.ring[Index(m.s.ring, c)].state.Dead?
    requires m.s.ring[Index(m.s.ring, c)].parent == Some(m.CurrentId())
    ensures Inv(m.(s := Freed(m.s, Index(m.s.ring, c)))) && c !in m.s.freed
  {
    var k := Index(m.s.ring, c);
    OnlyParentWaits(m, k);
    if m.s.zombie == Some(c) { IndexIs(m.s.ring, c, k); }
    FreedOrdered(m.s, k, false);
    FitsFreed(m, k, m.s.zombie);
    assert Freed(m.s, k).(zombie := m.s.zombie) == Freed(m.s, k);
    assert Fits(m, k);
  }

  lemma OnlyParentWaits(m: Machine, k: nat)
    requires Inv(m) && At(m).Call? && k < |m.s.ring| && m.s.ring[k].parent == Some(m.CurrentId())
    ensures Unwatched(m, k)
  {
    IndexIs(m.s.ring, m.s.ring[k].id, k);
    forall i: nat | i < |m.s.ring| && m.s.ring[i].id in m.phase
      ensures var p := m.phase[m.s.ring[i].id];
        p.Waiting? || p.Yielding? ==> p.why != Child(m.s.ring[k].id)
    {
      assert Fits(m, i);
      assert i > 0 ==> m.s.ring[0].id != m.s.ring[i].id;
    }
  }

  // ---- the theorem ----

  lemma TickInv(m: Machine)
    requires Inv(m) && Enabled(m, Tick)
    ensures Inv(Next(m, Tick))
  {
    FitsAgain(m, Next(m, Tick));
  }

  lemma YieldInv(m: Machine)
    requires Inv(m) && Enabled(m, Yield)
    ensures Inv(Next(m, Yield))
  {
    var p := At(m);
    var m1 := Move(m.(kgs := Local), Yielding(p.entry, p.saved, p.why));
    assert Fits(m, 0);
    forall i: nat | i < |m1.s.ring| ensures Fits(m1, i) { assert Fits(m, i) && Placed(m.s, 0, false); }
    SwitchInv(m1, false);
  }

  lemma FinishInv(m: Machine)
    requires Inv(m) && Enabled(m, Finish)
    ensures Inv(Next(m, Finish))
  {
    var p := At(m);
    assert Fits(m, 0);
    var m1 := Move(m.(userRsp := p.saved), Call(p.entry));
    MoveInv(m, m1, Call(p.entry));
    if p.why.Child? { CollectInv(m1, p.why.id); }
  }

  lemma ExitInv(m: Machine, code: nat)
    requires Inv(m) && Enabled(m, Exit(code))
    ensures Inv(Next(m, Exit(code)))
  {
    var m1 := Move(Swapgs(m).(s := Ended(WithCode(m.s, code))), Gone);
    EndInv(m, m1, code);
    SwitchInv(m1, true);
  }

  lemma FallInv(m: Machine)
    requires Inv(m) && Enabled(m, Fall)
    ensures Inv(Next(m, Fall))
  {
    var m1 := Move(m.(s := Ended(m.s)), Gone);
    assert WithCode(m.s, m.s.ring[0].exitCode) == m.s;
    EndInv(m, m1, m.s.ring[0].exitCode);
    SwitchInv(m1, true);
  }

  lemma ExecInv(m: Machine, cr3: nat, rsp: nat)
    requires Inv(m) && Enabled(m, Exec(cr3, rsp))
    ensures Inv(Next(m, Exec(cr3, rsp)))
  {
    var t := m.Current().(cr3 := cr3);
    FrontFields(m, t);
    var m1 := Replaced(m, cr3);
    var m0 := SetFront(m, t);
    forall i: nat | i < |m1.s.ring| ensures Fits(m1, i) && Placed(m1.s, i, false) { assert Fits(m0, i) && Placed(m0.s, i, false); }
    MoveInv(m1, Next(m, Exec(cr3, rsp)), Ring3(rsp));
  }

  lemma SetFsInv(m: Machine, base: nat)
    requires Inv(m) && Enabled(m, SetFs(base))
    ensures Inv(Next(m, SetFs(base)))
  {
    var t := m.Current().(fsBase := base);
    FrontFields(m, t);
    FitsAgain(SetFront(m, t), Next(m, SetFs(base)));
  }

  /** Every step keeps the invariant. */
  lemma StepInv(m: Machine, a: Action)
    requires Inv(m) && Enabled(m, a)
    ensures Inv(Next(m, a))
  {
    hide Ordered, Fits;
    match a
    case Tick => TickInv(m);
    case Preempt => SwitchInv(m, false);
    case EnterRing3(rsp) => MoveInv(m, Next(m, a), Ring3(rsp));
    case Trap => MoveInv(m, Next(m, a), Call(At(m).rsp));
    case Return => MoveInv(m, Next(m, a), Ring3(m.userRsp));
    case Block(why) => MoveInv(m, Next(m, a), Waiting(At(m).entry, m.userRsp, why));
    case Yield => YieldInv(m);
    case Resume => ResumeInv(m);
    case Finish => FinishInv(m);
    case Exit(code) => ExitInv(m, code);
    case Fall => FallInv(m);
    case Spawn(top, cr3, start) => BornInv(m, View(m.nextId, Ready, None, top, 0, cr3, 0), start);
    case Fork(top, cr3) =>
      BornInv(m, View(m.nextId, Ready, Some(m.CurrentId()), top, m.Current().fsBase, cr3, 0), Forked(At(m).entry));
    case Exec(cr3, rsp) => ExecInv(m, cr3, rsp);
    case SetFs(base) => SetFsInv(m, base);
  }

  lemma ResumeInv(m: Machine)
    requires Inv(m) && Enabled(m, Resume)
    ensures Inv(Next(m, Resume))
  {
    assert Fits(m, 0);
    MoveInv(m, Next(m, Resume), Waiting(At(m).entry, At(m).saved, At(m).why));
  }

  /** A run from start-up. */
  ghost predicate Run(run: seq<Machine>, acts: seq<Action>, idleTop: nat) {
    && |run| == |acts| + 1 && run[0] == Start0(idleTop)
    && forall i {:trigger acts[i]} | 0 <= i < |acts| ::
         |run[i].s.ring| > 0 && run[i].CurrentId() in run[i].phase && Enabled(run[i], acts[i]) && run[i + 1] == Next(run[i], acts[i])
  }

  /** Whatever happens in whatever order, at every moment: one task runs, the registers are its own,
      and the swapgs discipline holds. */
  lemma {:induction false} RunInv(run: seq<Machine>, acts: seq<Action>, idleTop: nat, i: nat)
    requires Run(run, acts, idleTop) && i < |run|
    ensures Inv(run[i])
  {
    if i == 0 {
      StartInv(idleTop);
    } else {
      RunInv(run, acts, idleTop, i - 1);
      assert Enabled(run[i - 1], acts[i - 1]);
      StepInv(run[i - 1], acts[i - 1]);
    }
  }
}
