/** The scheduler over its linked tasks, and the processor registers it keeps in step. */
module Scheduler {
  import opened Options
  import opened TaskRing

  class Task {
    const id: nat
    var state: State
    var next: Task?
    var parent: Task?
    var kernelStackTop: nat
    var fsBase: nat
    var cr3: nat
    var exitCode: nat

    /** A task fresh from task::create, on no ring yet. */
    constructor (id: nat, kernelStackTop: nat, cr3: nat)
      ensures View() == TaskRing.View(id, Ready, None, kernelStackTop, 0, cr3, 0) && parent == null && this.id == id
    {
      this.id, state, next, parent := id, Ready, null, null;
      this.kernelStackTop, fsBase, this.cr3, exitCode := kernelStackTop, 0, cr3, 0;
    }

    ghost function View(): View
      reads this
    {
      TaskRing.View(id, state, if parent == null then None else Some(parent.id), kernelStackTop, fsBase, cr3, exitCode)
    }
  }

  ghost function ViewsOf(ring: seq<Task>): (v: seq<View>)
    reads ring
    ensures |v| == |ring| && forall i {:trigger v[i]} | 0 <= i < |ring| :: v[i] == ring[i].View()
  {
    seq(|ring|, i requires 0 <= i < |ring| reads ring => ring[i].View())
  }

  /** The link of the i-th task leads to the next one, around the ring. */
  ghost predicate Linked(ring: seq<Task>, i: nat)
    requires i < |ring|
    reads ring[i]
  {
    ring[i].next == if i + 1 < |ring| then ring[i + 1] else ring[0]
  }

  ghost predicate Apart(ring: seq<Task>, i: nat, j: nat)
    requires i < |ring| && j < |ring|
  {
    i != j ==> ring[i] != ring[j]
  }

  /** One cycle through all the tasks, each once. */
  ghost predicate Ring(ring: seq<Task>)
    reads ring
  {
    && |ring| > 0
    && (forall i: nat, j: nat {:trigger Apart(ring, i, j)} | i < |ring| && j < |ring| :: Apart(ring, i, j))
    && (forall i: nat {:trigger Linked(ring, i)} | i < |ring| :: Linked(ring, i))
  }

  lemma PairRing(a: Task, b: Task)
    requires a != b && a.next == b && b.next == a
    ensures Ring([a, b])
  {
    assert Linked([a, b], 0) && Linked([a, b], 1);
  }

  ghost predicate SameNumber(a: Task, b: Task) {
    a.id == b.id ==> a == b
  }

  /** Every task that ever was has a number of its own, below the next one to be given. */
  ghost predicate Numbers(ring: seq<Task>, known: set<Task>, idle: Task, zombie: Task?, freed: set<nat>, nextId: nat)
    reads ring
  {
    && (forall a, b {:trigger SameNumber(a, b)} | a in known && b in known :: SameNumber(a, b))
    && (forall a {:trigger a in known} | a in known :: a.id < nextId)
    && (forall i: nat {:trigger ring[i]} | i < |ring| :: ring[i] in known && (ring[i].parent != null ==> ring[i].parent in known))
    && idle in known && (zombie != null ==> zombie in known)
    && (forall n {:trigger n in freed} | n in freed :: n < nextId)
  }

  lemma PairViews(a: Task, b: Task, idleTop: nat)
    requires a.View() == View(0, Running, None, 0, 0, 0, 0) && b.View() == View(1, Ready, None, idleTop, 0, 0, 0)
    ensures Sched(ViewsOf([a, b]), 1, None, {}, []) == Booted(0, 1, idleTop)
  {
    assert ViewsOf([a, b]) == [a.View(), b.View()];
  }

  lemma PairNumbers(a: Task, b: Task)
    requires a.id == 0 && b.id == 1 && a.parent == null && b.parent == null
    ensures Numbers([a, b], {a, b}, b, null, {}, 2)
  {
  }

  const TIMESLICE_TICKS: nat := 20

  class Scheduler {
    var current: Task
    const idle: Task
    var zombie: Task?
    var ticksLeft: nat
    var needResched: bool

    var kernelRsp: nat
    var rsp0: nat
    var fsBase: nat
    var cr3: nat

    /** The tasks in link order, starting with the current one. */
    ghost var ring: seq<Task>
    ghost var freed: set<nat>
    /** The address spaces destroyed so far. */
    ghost var released: seq<nat>
    var nextId: nat
    /** Every task that ever was; no two have the same number. */
    ghost var known: set<Task>

    ghost function Views(): seq<View>
      reads this, ring
    {
      ViewsOf(ring)
    }

    ghost function Abs(): Sched
      reads this, ring
    {
      Sched(Views(), idle.id, if zombie == null then None else Some(zombie.id), freed, released)
    }

    ghost predicate Cycle()
      reads this, ring
    {
      Ring(ring) && ring[0] == current
    }

    ghost predicate Numbered()
      reads this, ring
    {
      Numbers(ring, known, idle, zombie, freed, nextId)
    }

    /** The registers belong to the current task. */
    ghost predicate Synced()
      reads this, current
    {
      && fsBase == current.fsBase
      && (current.kernelStackTop != 0 ==> kernelRsp == rsp0 == current.kernelStackTop)
      && (current.cr3 != 0 ==> cr3 == current.cr3)
    }

    ghost predicate Valid()
      reads this, ring, current
    {
      Cycle() && Numbered() && Ordered(Abs(), false) && Synced()
    }

    /** sched::init: the calling context becomes the boot task; boot and idle form the ring. */
    constructor (idleTop: nat)
      ensures Valid() && fresh(ring) && |ring| == 2 && zombie == null
      ensures Abs() == Booted(0, 1, idleTop)
    {
      var boot := new Task(0, 0, 0);
      var other := new Task(1, idleTop, 0);
      boot.state := Running;
      boot.next, other.next := other, boot;
      current, idle, zombie := boot, other, null;
      ticksLeft, needResched := TIMESLICE_TICKS, false;
      kernelRsp, rsp0, fsBase, cr3 := 0, 0, 0, 0;
      nextId := 2;
      ring, freed, released, known := [boot, other], {}, [], {boot, other};
      new;
      hide Ordered, Ring, Numbers;
      BootedOrdered(0, 1, idleTop);
      PairRing(boot, other);
      PairNumbers(boot, other);
      PairViews(boot, other, idleTop);
      hide ViewsOf, Booted;
    }

    // ---- walking the ring ----

    /** first Ready task strictly after the current one, if any. */
    method NextReadyAfterCurrent() returns (t: Task?)
      requires Cycle()
      ensures var k := FirstReady(Views(), 1);
        if k < |ring| then t == ring[k] else t == null
    {
      var c := current.next;
      ghost var i := 1;
      assert Linked(ring, 0) && (|ring| > 1 ==> Apart(ring, 1, 0));
      while c != current
        invariant 1 <= i <= |ring| && c == (if i < |ring| then ring[i] else ring[0])
        invariant c == current ==> i == |ring|
        invariant FirstReady(Views(), 1) == FirstReady(Views(), i)
        decreases |ring| - i
      {
        if c.state == Ready { return c; }
        assert Linked(ring, i);
        c := c.next;
        i := i + 1;
        assert i < |ring| ==> Apart(ring, i, 0);
      }
      t := null;
    }

    /** find_task. */
    method FindTask(id: nat) returns (t: Task?)
      requires Cycle()
      ensures var k := Index(Views(), id);
        if k < |ring| then t == ring[k] else t == null
    {
      var c := current;
      ghost var i := 0;
      while true
        invariant 0 <= i < |ring| && c == ring[i]
        invariant forall j: nat | j < i :: ring[j].id != id
        decreases |ring| - i
      {
        if c.id == id { IndexAt(Views(), id, i); return c; }
        assert Linked(ring, i);
        c := c.next;
        i := i + 1;
        if i < |ring| { assert Apart(ring, i, 0); }
        if c == current { break; }
      }
      IndexNone(Views(), id);
      t := null;
    }

    // ---- taking a task off the ring ----

    /** The loop of unlink_from_ring: the task whose link leads to t. */
    method Before(t: Task, ghost k: nat) returns (prev: Task)
      requires Cycle() && 0 < k < |ring| && t == ring[k]
      ensures prev == ring[k - 1]
    {
      prev := current;
      ghost var i: nat := 0;
      assert Linked(ring, 0);
      while prev.next != t
        invariant 0 <= i < k && prev == ring[i]
        decreases k - i
      {
        assert Linked(ring, i) && Linked(ring, i + 1);
        prev := prev.next;
        i := i + 1;
      }
      assert Linked(ring, i) && Apart(ring, i + 1, k);
    }

    /** unlink_from_ring and free_task: t must not be the task whose stack we are on. Its address
        space is destroyed, whether or not CR3 names it; its kernel stack is not part of this class. */
    method UnlinkAndFree(t: Task, ghost k: nat)
      requires Cycle() && 0 < k < |ring| && t == ring[k]
      modifies this`ring, this`freed, this`released, ring`next
      ensures Cycle() && ring == old(ring)[..k] + old(ring)[k + 1..] && current == old(current)
      ensures Views() == Cut(old(Views()), k) && freed == old(freed) + {t.id}
      ensures released == if t.cr3 == 0 then old(released) else old(released) + [t.cr3]
    {
      var prev := Before(t, k);
      assert Linked(ring, k - 1) && Linked(ring, k);
      ghost var r0 := ring;
      ghost var v0 := Views();
      prev.next := t.next;
      ring := r0[..k] + r0[k + 1..];
      freed := freed + {t.id};
      if t.cr3 != 0 { released := released + [t.cr3]; }
      forall j: nat | j < |r0| && j != k && j != k - 1 ensures Linked(r0, j) {
        assert old(Linked(r0, j)) && Apart(r0, j, k - 1);
      }
      CutRing(r0, k);
      assert Views() == Cut(v0, k);
    }

    /** reap_zombie. */
    method ReapZombie(ghost leaving: bool)
      requires Cycle() && Numbered() && Ordered(Abs(), leaving)
      modifies this`ring, this`freed, this`released, this`zombie, ring`next
      ensures Cycle() && Numbered() && current == old(current) && (forall t | t in ring :: t in old(ring))
      ensures Ordered(old(Abs()), leaving) && Abs() == Reaped(old(Abs()))
      ensures released == if old(zombie) == null || old(zombie) == current || old(zombie.cr3) == 0 then old(released)
                          else old(released) + [old(zombie.cr3)]
    {
      hide Ordered, Ring, Numbers, Reaped;
      ReapedIs(Abs(), leaving);
      if zombie == null { return; }
      ZombieIs(leaving);
      if zombie == current { return; }
      FreeZombie(Index(Views(), zombie.id));
    }

    /** The zombie goes, and its slot is empty. */
    method FreeZombie(ghost k: nat)
      requires Cycle() && Numbered() && zombie != null && 0 < k < |ring| && ring[k] == zombie
      modifies this`ring, this`freed, this`released, this`zombie, ring`next
      ensures Cycle() && Numbered() && current == old(current) && (forall t | t in ring :: t in old(ring))
      ensures Abs() == Freed(old(Abs()), k).(zombie := None)
      ensures released == if old(zombie.cr3) == 0 then old(released) else old(released) + [old(zombie.cr3)]
    {
      hide Ring;
      ghost var r0 := ring;
      UnlinkAndFree(zombie, k);
      zombie := null;
      assert forall j: nat | j < |ring| :: ring[j] == r0[if j < k then j else j + 1];
      assert forall t | t in ring :: t in r0;
    }

    /** reap_zombie case by case. */
    lemma ReapedIs(s: Sched, leaving: bool)
      requires Ordered(s, leaving)
      ensures |s.ring| > 0 && (s.zombie.Some? ==> Index(s.ring, s.zombie.value) < |s.ring|)
      ensures Reaped(s) == if s.zombie.None? || s.zombie.value == s.ring[0].id then s
                           else Freed(s, Index(s.ring, s.zombie.value)).(zombie := None)
    {
    }

    /** The zombie pointer and the zombie's number mean the same task. */
    lemma ZombieIs(leaving: bool)
      requires Cycle() && Numbered() && Ordered(Abs(), leaving) && zombie != null
      ensures var k := Index(Views(), zombie.id);
        k < |ring| && ring[k] == zombie && (zombie == current <==> k == 0) && (k > 0 <==> zombie.id != current.id)
    {
      var k := Index(Views(), zombie.id);
      assert Views()[k].id == zombie.id;
      assert ring[k] in known && zombie in known && ring[0] in known;
      assert SameNumber(ring[k], zombie) && SameNumber(ring[0], zombie) && Apart(ring, 0, k);
    }

    /** schedule(), up to the point where the next task's saved context is resumed. The tasks are
        those of the abstract ring after Scheduled, and the registers follow the new front task. */
    method Schedule(ghost leaving: bool)
      requires Cycle() && Numbered() && Ordered(Abs(), leaving) && Synced()
      modifies this`ring, this`freed, this`released, this`zombie, this`current, this`kernelRsp, this`rsp0, this`fsBase, this`cr3
      modifies this`ticksLeft, this`needResched, ring`next, ring`state
      ensures Valid() && Pick(Reaped(old(Abs())).ring, idle.id) < |Reaped(old(Abs())).ring|
      ensures Abs() == Scheduled(old(Abs())) && (leaving ==> current != old(current))
      ensures ticksLeft == TIMESLICE_TICKS && !needResched
    {
      hide Ordered, Reaped, SwitchTo, Scheduled, Pick, Ring, Numbers;
      ScheduledIs(Abs(), leaving);
      ghost var r0 := ring;
      ReapZombie(leaving);
      assert forall i: nat | i < |ring| :: ring[i] in ring && ring[i] in r0;
      PickAndTurn();
    }

    /** The second part of schedule(): a Ready task, or the running one, or idle. */
    method PickAndTurn()
      requires Cycle() && Numbered() && Synced()
      requires FirstReady(Views(), 1) < |ring| || current.state == Running
      modifies this`ring, this`current, this`kernelRsp, this`rsp0, this`fsBase, this`cr3
      modifies this`ticksLeft, this`needResched, ring`state
      ensures Cycle() && Numbered() && Synced() && ticksLeft == TIMESLICE_TICKS && !needResched
      ensures var k := old(FirstReady(Views(), 1));
        && Views() == (if k < |old(ring)| then SwitchTo(old(Views()), k) else old(Views()))
        && (k < |old(ring)| ==> current != old(current))
    {
      hide SwitchTo, Ring, Numbers;
      var prior := current;
      ghost var k := FirstReady(Views(), 1);
      var next := NextReadyAfterCurrent();
      if next == null {
        next := if prior.state == Running then prior else idle;
      }
      ticksLeft, needResched := TIMESLICE_TICKS, false;
      FrontOnce(ring, k);
      if next == prior { return; }
      Turn(prior, next, k);
    }

    /** Make `next` the current task and bring the registers along. */
    method Turn(prior: Task, next: Task, ghost k: nat)
      requires Cycle() && Numbered() && 0 < k < |ring| && prior == current && next == ring[k]
      modifies this`ring, this`current, this`kernelRsp, this`rsp0, this`fsBase, this`cr3, prior`state, next`state
      ensures Cycle() && Numbered() && Synced() && current == next && ring == old(ring)[k..] + old(ring)[..k]
      ensures Views() == SwitchTo(old(Views()), k)
    {
      hide Ring, SwitchTo, Linked, Numbers;
      SwapStates(prior, next, k);
      TurnedRing(ring, k);
      TurnedNumbers(ring, k, known, idle, zombie, freed, nextId);
      MakeCurrent(next, ring[k..] + ring[..k]);
    }

    /** The kernel stack for SYSCALL and for interrupts from ring 3, the TLS base and the page tables. */
    method MakeCurrent(next: Task, ghost turned: seq<Task>)
      modifies this`ring, this`current, this`kernelRsp, this`rsp0, this`fsBase, this`cr3
      ensures Synced() && current == next && ring == turned
    {
      current := next;
      if next.kernelStackTop != 0 {
        kernelRsp := next.kernelStackTop;
        rsp0 := next.kernelStackTop;
      }
      fsBase := next.fsBase;
      if next.cr3 != 0 { cr3 := next.cr3; }
      ring := turned;
    }

    /** The states of the two tasks at the switch. */
    method SwapStates(prior: Task, next: Task, ghost k: nat)
      requires Ring(ring) && Numbered() && 0 < k < |ring| && prior == ring[0] && next == ring[k]
      modifies prior`state, next`state
      ensures Ring(ring) && Numbered() && ViewsOf(ring)[k..] + ViewsOf(ring)[..k] == SwitchTo(old(ViewsOf(ring)), k)
    {
      ghost var v0 := ViewsOf(ring);
      assert Apart(ring, 0, k);
      if prior.state == Running { prior.state := Ready; }
      next.state := Running;
      forall i: nat | i < |ring| ensures Linked(ring, i) && (i != 0 && i != k ==> ViewsOf(ring)[i] == v0[i]) {
        assert old(Linked(ring, i)) && Apart(ring, i, 0) && Apart(ring, i, k);
      }
      assert ViewsOf(ring) == v0[0 := ring[0].View()][k := ring[k].View()];
    }

    // ---- ticks ----

    /** tick: count down, and ask for a switch when the slice is used up. */
    method Tick()
      requires Valid()
      modifies this`ticksLeft, this`needResched
      ensures Valid() && Abs() == old(Abs())
      ensures ticksLeft == (if old(ticksLeft) > 0 then old(ticksLeft) - 1 else 0)
      ensures needResched <==> old(needResched) || old(ticksLeft) == 1
    {
      hide Ordered, Ring, Numbers;
      if ticksLeft > 0 {
        ticksLeft := ticksLeft - 1;
        if ticksLeft == 0 { needResched := true; }
      }
    }

    /** maybe_reschedule, after the end of an interrupt. */
    method MaybeReschedule()
      requires Valid()
      modifies this`ring, this`freed, this`released, this`zombie, this`current, this`kernelRsp, this`rsp0, this`fsBase, this`cr3
      modifies this`ticksLeft, this`needResched, ring`next, ring`state
      ensures Valid() && !needResched
      ensures !old(needResched) ==> Abs() == old(Abs())
      ensures old(needResched) ==> Pick(Reaped(old(Abs())).ring, idle.id) < |Reaped(old(Abs())).ring| && Abs() == Scheduled(old(Abs()))
    {
      hide Ordered, Ring, Numbers, Reaped, Scheduled, Pick;
      if !needResched { return; }
      Schedule(false);
    }

    // ---- ending ----

    /** exit_current. The idle task never gets here. The switch leads to another task. */
    method ExitCurrent()
      requires Valid() && current != idle
      modifies this`ring, this`freed, this`released, this`zombie, this`current, this`kernelRsp, this`rsp0, this`fsBase, this`cr3
      modifies this`ticksLeft, this`needResched, ring`next, ring`state
      ensures Valid() && current != old(current)
      ensures Ordered(Ended(old(Abs())), true)
      ensures Pick(Reaped(Ended(old(Abs()))).ring, idle.id) < |Reaped(Ended(old(Abs()))).ring|
      ensures Abs() == Scheduled(Ended(old(Abs())))
    {
      hide Ordered, Ring, Numbers, Reaped, Scheduled, Pick;
      IdleElsewhere();
      FrontOnce(ring, 1);
      EndedOrdered(Abs());
      MarkDead();
      Schedule(true);
    }

    /** sys_exit: the code for the parent's wait4, then exit_current. */
    method SysExit(code: nat)
      requires Valid() && current != idle
      modifies this`ring, this`freed, this`released, this`zombie, this`current, this`kernelRsp, this`rsp0, this`fsBase, this`cr3
      modifies this`ticksLeft, this`needResched, ring`next, ring`state, current`exitCode
      ensures Valid() && current != old(current) && old(current).exitCode == code
      ensures var s := old(Abs());
        var ended := Ended(s.(ring := s.ring[0 := s.ring[0].(exitCode := code)]));
        && Ordered(ended, true) && Pick(Reaped(ended).ring, idle.id) < |Reaped(ended).ring|
        && Abs() == Scheduled(ended)
    {
      StoreCode(code);
      ExitCurrent();
    }

    method StoreCode(code: nat)
      requires Valid()
      modifies current`exitCode
      ensures Valid() && current.exitCode == code
      ensures var s := old(Abs()); Abs() == s.(ring := s.ring[0 := s.ring[0].(exitCode := code)])
    {
      hide Ordered;
      ghost var s := Abs();
      current.exitCode := code;
      FrontOrdered(s, s.ring[0].(exitCode := code));
      forall i: nat | i < |ring| ensures Linked(ring, i) && (i != 0 ==> ring[i].View() == s.ring[i]) {
        assert old(Linked(ring, i)) && Apart(ring, i, 0);
      }
      assert Views() == s.ring[0 := s.ring[0].(exitCode := code)];
    }

    lemma IdleElsewhere()
      requires Cycle() && Numbered() && current != idle
      ensures Views()[0].id == current.id != idle.id
    {
      assert ring[0] in known && SameNumber(current, idle);
    }

    method MarkDead()
      requires Cycle() && Numbered() && Synced()
      modifies this`zombie, current`state
      ensures Cycle() && Numbered() && Synced() && Abs() == Ended(old(Abs()))
    {
      ghost var v0 := Views();
      current.state := Dead;
      if current.parent == null { zombie := current; }
      forall i: nat | i < |ring| ensures Linked(ring, i) && (i != 0 ==> Views()[i] == v0[i]) {
        assert old(Linked(ring, i)) && Apart(ring, i, 0);
      }
      assert Views() == v0[0 := ring[0].View()];
      assert ring[0] in known;
    }

    // ---- starting ----

    /** spawn: a fresh task right behind the current one. */
    method Spawn(kernelStackTop: nat, taskCr3: nat) returns (t: Task)
      requires Valid()
      modifies this`ring, this`nextId, this`known, current`next
      ensures Valid() && fresh(t) && t.id == old(nextId) && t.parent == null && ring == [old(ring)[0], t] + old(ring)[1..]
      ensures Abs() == Spawned(old(Abs()), View(old(nextId), Ready, None, kernelStackTop, 0, taskCr3, 0))
    {
      hide Ordered, Ring, Spawned;
      FreshNumber();
      SpawnedOrdered(Abs(), TaskRing.View(nextId, Ready, None, kernelStackTop, 0, taskCr3, 0));
      FrontOnce(ring, 1);
      t := new Task(nextId, kernelStackTop, taskCr3);
      nextId := nextId + 1;
      known := known + {t};
      Splice(t);
    }

    /** The two links that put t behind the current task. */
    method Splice(t: Task)
      requires Cycle() && t !in ring && Synced()
      modifies this`ring, current`next, t`next
      ensures Cycle() && Synced() && ring == [old(ring)[0], t] + old(ring)[1..]
      ensures Abs() == Spawned(old(Abs()), t.View())
    {
      ghost var s0, r0 := Abs(), ring;
      assert Linked(ring, 0);
      t.next := current.next;
      current.next := t;
      ring := [r0[0], t] + r0[1..];
      forall j: nat | j < |ring| ensures Linked(ring, j) {
        if j > 1 { assert old(Linked(ring, j - 1)) && Apart(r0, j - 1, 0); }
      }
      forall a: nat, b: nat | a < |ring| && b < |ring| ensures Apart(ring, a, b) {
        assert Apart(r0, if a < 2 then 0 else a - 1, if b < 2 then 0 else b - 1);
      }
      assert Views() == Spawned(s0, t.View()).ring;
    }

    /** The next number is used by nobody, on the ring or freed. */
    lemma FreshNumber()
      requires Cycle() && Numbered()
      ensures nextId !in freed && Index(Views(), nextId) == |ring|
    {
      forall j: nat | j < |ring| ensures Views()[j].id != nextId { assert ring[j] in known; }
    }

    /** The task side of fork: the child copies the TLS base and remembers its parent. */
    method SpawnChild(kernelStackTop: nat, taskCr3: nat) returns (t: Task)
      requires Valid()
      modifies this`ring, this`nextId, this`known, current`next
      ensures Valid() && fresh(t) && t.id == old(nextId) && t.parent == current == old(current)
      ensures Abs() == Spawned(old(Abs()), View(old(nextId), Ready, Some(current.id), kernelStackTop, current.fsBase, taskCr3, 0))
    {
      hide Ordered, Ring, Spawned;
      FreshNumber();
      ghost var child := TaskRing.View(nextId, Ready, Some(current.id), kernelStackTop, current.fsBase, taskCr3, 0);
      SpawnedOrdered(Abs(), child);
      FrontOnce(ring, 1);
      assert ring[0] in known;
      t := Child(kernelStackTop, taskCr3);
      nextId := nextId + 1;
      known := known + {t};
      Splice(t);
    }

    /** The fields of a child. */
    method Child(kernelStackTop: nat, taskCr3: nat) returns (t: Task)
      ensures fresh(t) && t.parent == current && t.id == nextId
      ensures t.View() == TaskRing.View(nextId, Ready, Some(current.id), kernelStackTop, current.fsBase, taskCr3, 0)
    {
      t := new Task(nextId, kernelStackTop, taskCr3);
      t.fsBase := current.fsBase;
      t.parent := current;
    }

    // ---- waiting for a child ----

    /** The test at the start of wait4. */
    method FindChild(pid: nat) returns (child: Task?)
      requires Valid()
      ensures var k := Index(Views(), pid);
        if k < |ring| && Views()[k].parent == Some(current.id) then child == ring[k] else child == null
    {
      hide Ordered;
      child := FindTask(pid);
      if child == null || child.parent != current {
        ghost var k := Index(Views(), pid);
        if child != null && child.parent != null { ParentIs(k); }
        return null;
      }
    }

    lemma ParentIs(k: nat)
      requires Cycle() && Numbered() && k < |ring| && ring[k].parent != null
      ensures ring[k].parent == current <==> ring[k].parent.id == current.id
    {
      assert ring[0] in known && ring[k] in known;
      assert SameNumber(ring[k].parent, current);
    }

    /** The end of wait4, once the child is dead: its status, its number, and its end. */
    method Collect(child: Task, ghost k: nat) returns (status: nat, pid: nat)
      requires Valid() && 0 < k < |ring| && child == ring[k] && child.state == Dead && child.parent == current
      modifies this`ring, this`freed, this`released, ring`next
      ensures Valid() && Abs() == Freed(old(Abs()), k) && current == old(current)
      ensures pid == child.id && status == child.exitCode % 256 * 256 && pid !in old(freed) && pid in freed
      ensures released == if child.cr3 == 0 then old(released) else old(released) + [child.cr3]
    {
      hide Ring, Ordered, Placed;
      status, pid := child.exitCode % 256 * 256, child.id;
      ghost var s := Abs();
      NoZombieChild(k);
      FreedOrdered(s, k, false);
      UnlinkAndFree(child, k);
      assert Abs() == Freed(s, k);
    }

    lemma NoZombieChild(k: nat)
      requires Cycle() && Numbered() && Ordered(Abs(), false) && k < |ring| && ring[k].parent != null
      ensures Abs().zombie != Some(ring[k].id) && Abs().ring[k].parent.Some?
    {
      if Abs().zombie == Some(ring[k].id) { IndexIs(Views(), ring[k].id, k); }
    }
  }

  lemma FrontOnce(r: seq<Task>, k: nat)
    requires Ring(r) && 0 < k
    ensures |r| > 0 && r[0] in r && (k < |r| ==> r[k] in r && r[k] != r[0])
  {
    if k < |r| { assert Apart(r, k, 0); }
  }

  lemma TurnedNumbers(r: seq<Task>, k: nat, known: set<Task>, idle: Task, zombie: Task?, freed: set<nat>, nextId: nat)
    requires Numbers(r, known, idle, zombie, freed, nextId) && k < |r|
    ensures Numbers(r[k..] + r[..k], known, idle, zombie, freed, nextId)
  {
    var r', n := r[k..] + r[..k], |r|;
    assert forall j: nat | j < n :: r'[j] == r[if j < n - k then j + k else j + k - n];
  }

  /** Without its k-th task the ring is a ring, if the task before it links past it. */
  lemma CutRing(r: seq<Task>, k: nat)
    requires 0 < k < |r| && r[k - 1].next == (if k + 1 < |r| then r[k + 1] else r[0])
    requires forall j: nat | j < |r| && j != k && j != k - 1 :: Linked(r, j)
    requires forall i: nat, j: nat {:trigger Apart(r, i, j)} | i < |r| && j < |r| :: Apart(r, i, j)
    ensures Ring(r[..k] + r[k + 1..]) && (r[..k] + r[k + 1..])[0] == r[0]
  {
    var r' := r[..k] + r[k + 1..];
    forall j: nat | j < |r'| ensures Linked(r', j) {
      assert r'[j] == r[if j < k then j else j + 1];
      assert j != k - 1 ==> Linked(r, if j < k then j else j + 1);
    }
    forall a: nat, b: nat | a < |r'| && b < |r'| ensures Apart(r', a, b) {
      assert Apart(r, if a < k then a else a + 1, if b < k then b else b + 1);
    }
  }

  lemma TurnedRing(r: seq<Task>, k: nat)
    requires Ring(r) && 0 < k < |r|
    ensures Ring(r[k..] + r[..k]) && ViewsOf(r[k..] + r[..k]) == ViewsOf(r)[k..] + ViewsOf(r)[..k]
  {
    var r', n := r[k..] + r[..k], |r|;
    forall j: nat | j < n ensures Linked(r', j) {
      assert Linked(r, if j < n - k then j + k else j + k - n);
    }
    forall a: nat, b: nat | a < n && b < n ensures Apart(r', a, b) {
      assert Apart(r, if a < n - k then a + k else a + k - n, if b < n - k then b + k else b + k - n);
    }
  }

  lemma IndexAt(ring: seq<View>, id: nat, i: nat)
    requires i < |ring| && ring[i].id == id && forall j: nat | j < i :: ring[j].id != id
    ensures Index(ring, id) == i
  {
  }

  lemma IndexNone(ring: seq<View>, id: nat)
    requires forall j: nat | j < |ring| :: ring[j].id != id
    ensures Index(ring, id) == |ring|
  {
  }
}
