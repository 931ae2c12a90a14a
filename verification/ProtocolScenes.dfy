/** Runs from start-up, step by step, in which an ended task is lost or its address space is destroyed
    while CR3 still names it. */
module ProtocolScenes {
  import opened Options
  import opened TaskRing
  import opened SyscallProtocol
  import opened StepEffects
  import opened ProtocolRuns
  import opened TaskFates
  import opened FateRuns
  import opened LoadedSpaces

  const TOP: nat := 4096

  function Boot(state: State): View { View(0, state, None, 0, 0, 0, 0) }
  function Idle(state: State): View { View(1, state, None, TOP, 0, 0, 0) }
  function Other(id: nat, state: State, parent: Option<nat>, cr3: nat): View { View(id, state, parent, TOP * id, 0, cr3, 0) }

  /** The rest of the time slice runs out. */
  lemma {:induction false} Ticks(m: Machine) returns (m': Machine)
    requires |m.s.ring| > 0 && m.CurrentId() in m.phase && Open(At(m)) && m.ticksLeft > 0 && !m.resched
    ensures Reaches(m, m') && m' == m.(ticksLeft := 0, resched := true)
    decreases m.ticksLeft
  {
    hide Reaches;
    Step(m, Tick);
    m' := Next(m, Tick);
    if m.ticksLeft > 1 {
      m' := Ticks(Next(m, Tick));
      Through(m, Next(m, Tick), m');
    }
  }

  /** The machine after schedule() has turned from the first task to the second. */
  function Turned(m: Machine, first: View, second: View, rest: seq<View>): Machine {
    var back := if first.state.Running? then first.(state := Ready) else first;
    m.(s := m.s.(ring := [second.(state := Running)] + rest + [back]), ticksLeft := 20, resched := false,
       kernelRsp := if second.top != 0 then second.top else m.kernelRsp,
       rsp0 := if second.top != 0 then second.top else m.rsp0,
       fs := second.fsBase, cr3 := if second.cr3 != 0 then second.cr3 else m.cr3)
  }

  /** schedule() on a ring whose second task is Ready, with the zombie slot empty or naming the first. */
  lemma Turn(m: Machine, first: View, second: View, rest: seq<View>)
    requires m.s.ring == [first, second] + rest && second.state.Ready? && (m.s.zombie.Some? ==> m.s.zombie.value == first.id)
    ensures Schedulable(m.s) && Rescheduled(m) == Turned(m, first, second, rest)
  {
    var s := m.s;
    assert Reaped(s) == s;
    assert FirstReady(s.ring, 1) == 1;
    var back := if first.state.Running? then first.(state := Ready) else first;
    assert SwitchTo(s.ring, 1) == [second.(state := Running)] + rest + [back];
  }

  /** The first task uses up its time slice. */
  lemma Slice(m: Machine, first: View, second: View, rest: seq<View>) returns (m': Machine)
    requires m.s.ring == [first, second] + rest && second.state.Ready? && m.s.zombie.None? && m.ticksLeft == 20 && !m.resched
    requires m.CurrentId() in m.phase && Open(At(m))
    ensures Reaches(m, m') && m' == Turned(m, first, second, rest)
  {
    hide Reaches, Rescheduled;
    var m1 := Ticks(m);
    Turn(m1, first, second, rest);
    Step(m1, Preempt);
    m' := Next(m1, Preempt);
    Through(m, m1, m');
  }

  /** The first task, a kernel task without a parent, comes to its end. */
  lemma Falls(m: Machine, first: View, second: View, rest: seq<View>) returns (m': Machine)
    requires m.s.ring == [first, second] + rest && second.state.Ready? && first.parent.None?
    requires m.CurrentId() in m.phase && At(m).Kernel? && !At(m).start.Forever?
    ensures Reaches(m, m')
    ensures m' == Turned(Move(m.(s := m.s.(ring := [first.(state := Dead), second] + rest, zombie := Some(first.id))), Gone), first.(state := Dead), second, rest)
  {
    hide Reaches, Rescheduled;
    var m1 := Move(m.(s := Ended(m.s)), Gone);
    assert m1.s.ring == [first.(state := Dead), second] + rest;
    Turn(m1, first.(state := Dead), second, rest);
    Step(m, Fall);
    m' := Next(m, Fall);
  }

  /** A new task right behind the first one. */
  lemma Starts(m: Machine, first: View, rest: seq<View>, t: View, start: Start) returns (m': Machine)
    requires m.s.ring == [first] + rest && m.CurrentId() in m.phase && At(m).Kernel? && (start.Plain? || start.Image?)
    requires t == Other(m.nextId, Ready, None, t.cr3) && m.nextId > 0
    ensures Reaches(m, m')
    ensures m' == m.(s := m.s.(ring := [first, t] + rest), phase := m.phase[t.id := Kernel(start)], nextId := m.nextId + 1)
  {
    hide Reaches;
    Step(m, Spawn(t.top, t.cr3, start));
    m' := Next(m, Spawn(t.top, t.cr3, start));
  }

  lemma {:induction false} FamilyReach(m: Machine, acts: seq<Action>, m': Machine)
    requires Family(m) && Leads(m, acts, m')
    ensures Family(m')
    decreases |acts|
  {
    hide Ordered, Fits, Next, Kin;
    if acts != [] {
      FamilyStep(m, acts[0]);
      FamilyReach(Next(m, acts[0]), acts[1..], m');
    }
  }

  lemma FromStart(m: Machine)
    requires Reaches(Start0(TOP), m)
    ensures Family(m)
  {
    hide Family;
    StartFamily(TOP);
    var acts :| Leads(Start0(TOP), acts, m);
    FamilyReach(Start0(TOP), acts, m);
  }

  /** What start-up leads to is the last moment of a run. */
  lemma SceneIsRun(m: Machine) returns (run: seq<Machine>, acts: seq<Action>)
    requires Reaches(Start0(TOP), m)
    ensures Run(run, acts, TOP) && run[|acts|] == m
  {
    hide Leads, Enabled, Next;
    acts :| Leads(Start0(TOP), acts, m);
    run := RunOn([Start0(TOP)], [], TOP, acts, m);
    assert [] + acts == acts;
  }

  lemma ForGood(m: Machine, t: nat)
    requires Reaches(Start0(TOP), m) && Lost(m.s, t)
    ensures forall m' | Reaches(m, m') :: t !in m'.s.freed
  {
    hide Family, Over, Reaches;
    FromStart(m);
    NeverFreed(m, t);
  }

  // ---- an unparented task is lost ----

  /** Two kernel tasks that end one after the other: the zombie slot is overwritten, and the first one
      is never freed. */
  lemma ZombieOverwritten() returns (m: Machine)
    ensures Reaches(Start0(TOP), m) && Lost(m.s, 3) && forall m' | Reaches(m, m') :: 3 !in m'.s.freed
  {
    hide Reaches;
    var m0 := Start0(TOP);
    var m1 := Starts(m0, Boot(Running), [Idle(Ready)], Other(2, Ready, None, 0), Plain);
    var m2 := Starts(m1, Boot(Running), [Other(2, Ready, None, 0), Idle(Ready)], Other(3, Ready, None, 0), Plain);
    Through(m0, m1, m2);
    var m3 := Slice(m2, Boot(Running), Other(3, Ready, None, 0), [Other(2, Ready, None, 0), Idle(Ready)]);
    Through(m0, m2, m3);
    assert m3.s.ring == [Other(3, Running, None, 0), Other(2, Ready, None, 0), Idle(Ready), Boot(Ready)] && m3.phase == m2.phase;
    var m4 := Falls(m3, Other(3, Running, None, 0), Other(2, Ready, None, 0), [Idle(Ready), Boot(Ready)]);
    Through(m0, m3, m4);
    assert m4.s.ring == [Other(2, Running, None, 0), Idle(Ready), Boot(Ready), Other(3, Dead, None, 0)] && m4.phase == m3.phase[3 := Gone];
    m := Falls(m4, Other(2, Running, None, 0), Idle(Ready), [Boot(Ready), Other(3, Dead, None, 0)]);
    Through(m0, m4, m);
    assert m.s.ring == [Idle(Running), Boot(Ready), Other(3, Dead, None, 0), Other(2, Dead, None, 0)] && m.s.zombie == Some(2);
    IndexOf(m.s.ring, 3, 2);
    ForGood(m, 3);
  }

  lemma IndexOf(ring: seq<View>, id: nat, i: nat)
    requires i < |ring| && ring[i].id == id && forall j: nat | j < i :: ring[j].id != id
    ensures Index(ring, id) == i
  {
  }

  // ---- a child is lost ----

  /** The first task enters ring 3 and makes a system call. */
  lemma Calls(m: Machine, a: Action) returns (m': Machine)
    requires |m.s.ring| > 0 && m.CurrentId() in m.phase && a.EnterRing3? && Enabled(m, a) && m.gs == User && m.kgs == Local
    ensures Reaches(m, m') && m' == m.(gs := Local, kgs := User, userRsp := a.rsp, phase := m.phase[m.CurrentId() := Call(a.rsp)])
  {
    hide Reaches;
    Step(m, a);
    var m1 := Next(m, a);
    Step(m1, Trap);
    m' := Next(m1, Trap);
    Through(m, m1, m');
    assert m1.phase[m.CurrentId() := Call(a.rsp)] == m.phase[m.CurrentId() := Call(a.rsp)];
  }

  /** A program forks and exits; its child exits after it: nobody is left to collect the child. */
  lemma ChildOutlives() returns (m: Machine)
    ensures Reaches(Start0(TOP), m) && Lost(m.s, 3) && forall m' | Reaches(m, m') :: 3 !in m'.s.freed
    ensures CardOf(m.s.ring, 3) == Some(Card(Some(2), 3 * TOP, 0, 8888, 0, true))
  {
    hide Reaches, Rescheduled;
    var m0 := Start0(TOP);
    var m1 := Starts(m0, Boot(Running), [Idle(Ready)], Other(2, Ready, None, 7777), Image);
    var m2 := Slice(m1, Boot(Running), Other(2, Ready, None, 7777), [Idle(Ready)]);
    Through(m0, m1, m2);
    var m3 := Calls(m2, EnterRing3(100));
    Through(m0, m2, m3);
    Step(m3, Fork(3 * TOP, 8888));
    var m4 := Next(m3, Fork(3 * TOP, 8888));
    Through(m0, m3, m4);
    var child := Other(3, Ready, Some(2), 8888);
    assert m4.s.ring == [Other(2, Running, None, 7777), child, Idle(Ready), Boot(Ready)];
    var m5 := ParentExits(m4, Other(2, Running, None, 7777), child, [Idle(Ready), Boot(Ready)]);
    Through(m0, m4, m5);
    m := ChildExits(m5);
    Through(m0, m5, m);
    ForGood(m, 3);
  }

  lemma ParentExits(m: Machine, first: View, second: View, rest: seq<View>) returns (m': Machine)
    requires m.s.ring == [first, second] + rest && second.state.Ready? && first.parent.None? && first.exitCode == 0
    requires m.CurrentId() in m.phase && At(m).Call?
    ensures Reaches(m, m')
    ensures m' == Turned(Move(Swapgs(m).(s := m.s.(ring := [first.(state := Dead), second] + rest, zombie := Some(first.id))), Gone), first.(state := Dead), second, rest)
  {
    hide Reaches, Rescheduled;
    var m1 := Move(Swapgs(m).(s := Ended(WithCode(m.s, 0))), Gone);
    assert m1.s.ring == [first.(state := Dead), second] + rest;
    Turn(m1, first.(state := Dead), second, rest);
    Step(m, Exit(0));
    m' := Next(m, Exit(0));
  }

  /** The exit of the child frees the parent, which is still in the zombie slot. */
  lemma ChildExits(m: Machine) returns (m': Machine)
    requires m.s.ring == [Other(3, Running, Some(2), 8888), Idle(Ready), Boot(Ready), Other(2, Dead, None, 7777)]
    requires m.s.zombie == Some(2) && 3 in m.phase && m.phase[3] == Kernel(Forked(100)) && m.gs == User && m.kgs == Local
    ensures Reaches(m, m') && Lost(m'.s, 3) && CardOf(m'.s.ring, 3) == Some(Card(Some(2), 3 * TOP, 0, 8888, 0, true))
  {
    hide Reaches, Lost, CardOf, Scheduled, Reaped;
    var m1 := Calls(m, EnterRing3(100));
    ExitReaps(m1.s);
    Step(m1, Exit(0));
    m' := Next(m1, Exit(0));
    Through(m, m1, m');
  }

  lemma ExitReaps(s: Sched)
    requires s.ring == [Other(3, Running, Some(2), 8888), Idle(Ready), Boot(Ready), Other(2, Dead, None, 7777)] && s.zombie == Some(2)
    ensures var s1 := Ended(WithCode(s, 0));
      Schedulable(s1) && Lost(Scheduled(s1), 3) && CardOf(Scheduled(s1).ring, 3) == Some(Card(Some(2), 3 * TOP, 0, 8888, 0, true))
  {
    var s1, dead := Ended(WithCode(s, 0)), Other(3, Dead, Some(2), 8888);
    assert s1.ring == [dead, Idle(Ready), Boot(Ready), Other(2, Dead, None, 7777)];
    IndexOf(s1.ring, 2, 3);
    var r := Reaped(s1);
    assert r.ring == [dead, Idle(Ready), Boot(Ready)];
    assert FirstReady(r.ring, 1) == 1;
    assert SwitchTo(r.ring, 1) == [Idle(Running), Boot(Ready), dead];
    IndexOf(Scheduled(s1).ring, 3, 2);
    assert Over(Scheduled(s1), 2) by { assert 2 in Scheduled(s1).freed; }
  }

  // ---- the loaded address space is destroyed ----

  /** A program without a parent ends while no other program exists: the idle task runs on its page
      tables, the next schedule() destroys them, and CR3 still names them afterwards. */
  lemma ReleasedWhileLoaded() returns (m: Machine)
    ensures Reaches(Start0(TOP), m) && Inv(m) && Enabled(m, Preempt) && Frees(m, Preempt) == Some(2)
    ensures ReleasesLoaded(m, Preempt) && m.cr3 == 7777 && Next(m, Preempt).cr3 == 7777
  {
    hide Reaches;
    var m0 := Start0(TOP);
    var m1 := Starts(m0, Boot(Running), [Idle(Ready)], Other(2, Ready, None, 7777), Image);
    var m2 := Slice(m1, Boot(Running), Other(2, Ready, None, 7777), [Idle(Ready)]);
    Through(m0, m1, m2);
    assert m2.s.ring == [Other(2, Running, None, 7777), Idle(Ready), Boot(Ready)] && m2.phase == m1.phase;
    var m3 := Falls(m2, Other(2, Running, None, 7777), Idle(Ready), [Boot(Ready)]);
    Through(m0, m2, m3);
    assert m3.s.ring == [Idle(Running), Boot(Ready), Other(2, Dead, None, 7777)] && m3.phase == m2.phase[2 := Gone];
    m := Ticks(m3);
    Through(m0, m3, m);
    FromStart(m);
    Destroys(m);
  }

  lemma Destroys(m: Machine)
    requires Inv(m) && m.s.ring == [Idle(Running), Boot(Ready), Other(2, Dead, None, 7777)] && m.s.zombie == Some(2) && m.cr3 == 7777
    requires Enabled(m, Preempt)
    ensures ReleasesLoaded(m, Preempt) && Next(m, Preempt).cr3 == 7777
  {
    hide Inv;
    IndexOf(m.s.ring, 2, 2);
    ReapReleases(m, Preempt);
    assert Reaped(m.s).ring == [Idle(Running), Boot(Ready)];
    assert FirstReady(Reaped(m.s).ring, 1) == 1;
    assert SwitchTo(Reaped(m.s).ring, 1) == [Boot(Running), Idle(Ready)];
  }
}
