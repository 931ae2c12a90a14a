/** Every ended task that is not lost can still be freed: the running task can always be made to give
    way, so any live task can be brought to the front, and a parent out of its calls. */
module FateRuns {
  import opened Options
  import opened TaskRing
  import opened SyscallProtocol
  import opened StepEffects
  import opened ProtocolRuns
  import opened TaskFates

  // ---- giving way ----

  /** What the running task does on its way to the next call of schedule(), if it neither ends nor
      creates tasks. */
  function Polite(m: Machine): Action
    requires |m.s.ring| > 0 && m.CurrentId() in m.phase
  {
    match At(m)
    case Kernel(_) => if m.resched then Preempt else Tick
    case Ring3(_) => if m.resched then Preempt else Tick
    case Call(_) => Return
    case Waiting(_, _, why) => if why.Child? && WaitOver(m, why) then Finish else Yield
    case Yielding(_, _, _) => Resume
    case Gone => Tick
  }

  /** How deep it is inside its call, and how long it still has outside. */
  function Depth(m: Machine): nat
    requires |m.s.ring| > 0 && m.CurrentId() in m.phase
  {
    match At(m)
    case Call(_) => 1
    case Waiting(_, _, _) => 2
    case Yielding(_, _, _) => 3
    case _ => 0
  }

  function Left(m: Machine): nat { if m.resched then 0 else m.ticksLeft }

  lemma PoliteStep(m: Machine)
    requires Family(m)
    ensures var a := Polite(m);
      && Enabled(m, a) && !Ends(a) && !Spawns(a) && Next(m, a).nextId == m.nextId
      && (Schedules(a) || (Next(m, a).s.zombie == m.s.zombie && |Next(m, a).s.ring| > 0 && Next(m, a).CurrentId() == m.CurrentId()
           && m.CurrentId() in Next(m, a).phase
           && (Depth(Next(m, a)) < Depth(m) || (Depth(Next(m, a)) == Depth(m) && Left(Next(m, a)) < Left(m)))))
  {
    hide Ordered, Rescheduled, CardOf;
    assert Fits(m, 0);
    FrontIs(m);
    PhaseEffect(m, Polite(m));
  }

  /** A live task is on the ring and has not ended. */
  ghost predicate Live(s: Sched, p: nat) {
    match CardOf(s.ring, p)
    case None => false
    case Some(c) => !c.dead
  }

  lemma LiveInLine(m: Machine, p: nat)
    requires Inv(m) && Live(m.s, p)
    ensures InLine(m.s, p, Index(m.s.ring, p)) && p < m.nextId && p in m.phase && !m.phase[p].Gone?
  {
    OnRing(m, p);
    assert Placed(m.s, Index(m.s.ring, p), false);
  }

  lemma LiveStep(m: Machine, a: Action, p: nat)
    requires Inv(m) && Enabled(m, a) && Live(m.s, p) && !(Ends(a) && p == m.CurrentId())
    ensures Live(Next(m, a).s, p)
  {
    hide Ordered, Fits, Next, CardOf;
    StepEffect(m, a);
    FrontIs(m);
    if Frees(m, a).Some? { FreesDead(m, a, Frees(m, a).value); }
    OnRing(m, p);
  }

  /** Any live task comes to the front without having changed its phase. */
  lemma {:induction false} Drive(m: Machine, p: nat) returns (m': Machine)
    requires Family(m) && Live(m.s, p)
    ensures Family(m') && Reaches(m, m') && m'.nextId == m.nextId && m'.CurrentId() == p && Live(m'.s, p)
    ensures p in m.phase && m'.phase[p] == m.phase[p]
    decreases Index(m.s.ring, p), if |m.s.ring| > 0 && m.CurrentId() in m.phase then Depth(m) else 0, Left(m)
  {
    hide Ordered, Fits, Next, Enabled, Polite, Depth, Kin, CardOf, Reaches, Live, InLine, Left, Discipline, Synced;
    LiveInLine(m, p);
    var d := Index(m.s.ring, p);
    if d == 0 {
      m' := m;
      Stay(m);
    } else {
      PoliteStep(m);
      var a := Polite(m);
      Behind(m, p);
      FamilyStep(m, a);
      StepDistance(m, a, p, d);
      LiveStep(m, a, p);
      PhaseEffect(m, a);
      Step(m, a);
      m' := Drive(Next(m, a), p);
      Through(m, Next(m, a), m');
    }
  }

  lemma Stay(m: Machine)
    ensures Reaches(m, m)
  {
    assert Leads(m, [], m);
  }

  lemma Behind(m: Machine, p: nat)
    requires |m.s.ring| > 0 && Index(m.s.ring, p) > 0
    ensures m.CurrentId() != p
  {
  }

  // ---- out of a call ----

  /** p waits for its child c. */
  ghost predicate Awaits(m: Machine, p: nat, c: nat) {
    p in m.phase && (m.phase[p].Waiting? || m.phase[p].Yielding?) && m.phase[p].why == Child(c)
  }

  /** Nothing but the end of the child ends the wait. */
  lemma AwaitsStep(m: Machine, a: Action, p: nat, c: nat)
    requires Inv(m) && Enabled(m, a) && Awaits(m, p, c) && Live(m.s, p) && !Over(m.s, c)
    ensures Awaits(Next(m, a), p, c) && Live(Next(m, a).s, p)
  {
    hide Ordered, Fits, CardOf, Over, Next;
    OnRing(m, p);
    if p == m.CurrentId() { AwaitsFront(m, a, c); }
    LiveStep(m, a, p);
    PhaseEffect(m, a);
  }

  lemma AwaitsFront(m: Machine, a: Action, c: nat)
    requires Inv(m) && Enabled(m, a) && Awaits(m, m.CurrentId(), c) && !Over(m.s, c)
    ensures Awaits(Next(m, a), m.CurrentId(), c) && !Ends(a)
  {
    hide Ordered, Fits, CardOf, Over, Scheduled, Reaped;
    if a.Finish? { OverNow(m, c); }
  }

  lemma OverNow(m: Machine, c: nat)
    requires WaitOver(m, Child(c))
    ensures Over(m.s, c)
  {
  }

  lemma {:induction false} AwaitsOn(m: Machine, acts: seq<Action>, m': Machine, p: nat, c: nat)
    requires Inv(m) && Leads(m, acts, m') && Awaits(m, p, c) && Live(m.s, p) && !Over(m'.s, c)
    ensures Inv(m') && Awaits(m', p, c) && Live(m'.s, p) && !Over(m.s, c)
    decreases |acts|
  {
    hide Ordered, Fits, Next, Over, Awaits, Live, CardOf;
    if acts != [] {
      StepInv(m, acts[0]);
      if Over(m.s, c) {
        OverOn(m, acts, m', c);
        assert false;
      } else {
        AwaitsStep(m, acts[0], p, c);
        AwaitsOn(Next(m, acts[0]), acts[1..], m', p, c);
      }
    }
  }

  lemma {:induction false} OverOn(m: Machine, acts: seq<Action>, m': Machine, t: nat)
    requires Inv(m) && Leads(m, acts, m') && Over(m.s, t)
    ensures Over(m'.s, t)
    decreases |acts|
  {
    hide Ordered, Fits, Next, Over, CardOf;
    if acts != [] {
      StepInv(m, acts[0]);
      OverStep(m, acts[0], t);
      OverOn(Next(m, acts[0]), acts[1..], m', t);
    }
  }

  /** One more step. */
  lemma Take(m: Machine, a: Action)
    requires Family(m) && Enabled(m, a)
    ensures Family(Next(m, a)) && Reaches(m, Next(m, a)) && (!Spawns(a) ==> Next(m, a).nextId == m.nextId)
  {
    hide Ordered, Fits, Next, Kin;
    FamilyStep(m, a);
    PhaseEffect(m, a);
    Step(m, a);
  }

  /** A task that may make system calls, sooner or later. */
  ghost predicate Able(m: Machine, p: nat) {
    p in m.phase && (m.phase[p].Kernel? ==> m.phase[p].start.Forked?)
  }

  /** Outside any wait the running task gets into a call at once. */
  lemma EnterCall(m: Machine) returns (m': Machine)
    requires Family(m) && Able(m, m.CurrentId()) && !At(m).Waiting? && !At(m).Yielding?
    ensures Family(m') && Reaches(m, m') && m'.nextId == m.nextId && m'.CurrentId() == m.CurrentId() && At(m').Call?
  {
    hide Ordered, Fits, Kin, Reaches, CardOf;
    FrontIs(m);
    OnRing(m, m.CurrentId());
    m' := m;
    Stay(m);
    if At(m').Kernel? {
      var a := EnterRing3(At(m).start.rsp);
      Take(m', a);
      m' := Next(m', a);
    }
    if At(m').Ring3? {
      Take(m', Trap);
      Through(m, m', Next(m', Trap));
      m' := Next(m', Trap);
    }
  }

  /** In front, a wait is at its test. */
  lemma AtTest(m: Machine) returns (m': Machine)
    requires Family(m) && (At(m).Waiting? || At(m).Yielding?)
    ensures Family(m') && Reaches(m, m') && m'.s == m.s && m'.nextId == m.nextId && At(m').Waiting? && At(m').why == At(m).why
  {
    hide Ordered, Fits, Kin, Reaches;
    m' := m;
    Stay(m);
    if At(m).Yielding? {
      Take(m, Resume);
      m' := Next(m, Resume);
    }
  }

  lemma LeaveWait(m: Machine) returns (m': Machine)
    requires Family(m) && At(m).Waiting? && WaitOver(m, At(m).why)
    ensures Family(m') && Reaches(m, m') && m'.nextId == m.nextId && m'.CurrentId() == m.CurrentId() && At(m').Call?
  {
    hide Ordered, Fits, Kin, Reaches;
    Take(m, Finish);
    m' := Next(m, Finish);
  }

  /** The child that the running task waits for: younger, alive, and itself on its way to a call. */
  lemma AwaitedChild(m: Machine, c: nat)
    requires Family(m) && At(m).Waiting? && At(m).why == Child(c)
    ensures m.CurrentId() < c < m.nextId && Able(m, c) && (WaitOver(m, Child(c)) <==> Over(m.s, c)) && (Live(m.s, c) <==> !Over(m.s, c))
  {
    assert Fits(m, 0) && Watched(m, m.CurrentId(), c);
    OnRing(m, c);
    assert Kin(m, c);
  }

  /** The wait goes on while the child runs. */
  lemma YieldTo(m: Machine, c: nat) returns (m': Machine)
    requires Family(m) && At(m).Waiting? && At(m).why == Child(c) && !Over(m.s, c)
    ensures Family(m') && Reaches(m, m') && m'.nextId == m.nextId
    ensures Awaits(m', m.CurrentId(), c) && Live(m'.s, m.CurrentId()) && Live(m'.s, c) && Able(m', c)
  {
    hide Ordered, Fits, Kin, Reaches, Next, CardOf, Over, Discipline, Synced;
    AwaitedChild(m, c);
    Take(m, Yield);
    m' := Next(m, Yield);
    FrontIs(m);
    AwaitsStep(m, Yield, m.CurrentId(), c);
    LiveStep(m, Yield, c);
    PhaseEffect(m, Yield);
    assert c in m'.phase;
  }

  lemma AwaitsReach(m: Machine, m': Machine, p: nat, c: nat)
    requires Inv(m) && Reaches(m, m') && Awaits(m, p, c) && Live(m.s, p) && !Over(m'.s, c)
    ensures Inv(m') && Awaits(m', p, c) && Live(m'.s, p)
  {
    hide Inv, Awaits, Live, Over;
    var acts :| Leads(m, acts, m');
    AwaitsOn(m, acts, m', p, c);
  }

  lemma OverReach(m: Machine, m': Machine, t: nat)
    requires Inv(m) && Reaches(m, m') && Over(m.s, t)
    ensures Over(m'.s, t)
  {
    hide Inv, Over;
    var acts :| Leads(m, acts, m');
    OverOn(m, acts, m', t);
  }

  /** The child in front ends; its parent still waits for it. */
  lemma EndChild(m: Machine, p: nat) returns (m': Machine)
    requires Family(m) && At(m).Call? && Awaits(m, p, m.CurrentId()) && Live(m.s, p) && p != m.CurrentId()
    ensures Family(m') && Reaches(m, m') && m'.nextId == m.nextId && Over(m'.s, m.CurrentId())
    ensures Awaits(m', p, m.CurrentId()) && Live(m'.s, p)
  {
    hide Ordered, Fits, Kin, Reaches, Next, CardOf;
    var a := Exit(0);
    Take(m, a);
    m' := Next(m, a);
    EndStep(m, a);
    LiveStep(m, a, p);
    OnRing(m, p);
    PhaseEffect(m, a);
  }

  /** A live task that can make system calls gets into one, in front, whatever it waits for now: a
      child that it waits for is made to end first. */
  lemma {:induction false} ToCall(m: Machine, p: nat) returns (m': Machine)
    requires Family(m) && Live(m.s, p) && Able(m, p)
    ensures Family(m') && Reaches(m, m') && m'.nextId == m.nextId && m'.CurrentId() == p && At(m').Call?
    decreases m.nextId - p, 1
  {
    hide Ordered, Fits, Kin, Reaches, CardOf, WaitOver, Over, Live, Awaits, Discipline, Synced;
    LiveInLine(m, p);
    var m1 := Drive(m, p);
    if !At(m1).Waiting? && !At(m1).Yielding? {
      m' := EnterCall(m1);
      Through(m, m1, m');
    } else {
      var m2 := AtTest(m1);
      Through(m, m1, m2);
      var m3 := m2;
      if At(m2).why.Child? && !WaitOver(m2, At(m2).why) {
        m3 := AfterChild(m2, At(m2).why.id);
        Through(m, m2, m3);
      } else {
        Line(m2);
      }
      m' := LeaveWait(m3);
      Through(m, m3, m');
    }
  }

  lemma Line(m: Machine)
    requires Inv(m) && At(m).Waiting? && (At(m).why.Child? ==> WaitOver(m, At(m).why))
    ensures WaitOver(m, At(m).why)
  {
  }

  lemma {:induction false} AfterChild(m: Machine, c: nat) returns (m': Machine)
    requires Family(m) && At(m).Waiting? && At(m).why == Child(c) && !WaitOver(m, Child(c))
    ensures Family(m') && Reaches(m, m') && m'.nextId == m.nextId && m'.CurrentId() == m.CurrentId()
    ensures At(m').Waiting? && At(m').why == Child(c) && WaitOver(m', Child(c))
    decreases m.nextId - m.CurrentId(), 0
  {
    hide Ordered, Fits, Kin, Reaches, CardOf, WaitOver, Over, Live, Discipline, Synced;
    var p := m.CurrentId();
    AwaitedChild(m, c);
    var m1 := YieldTo(m, c);
    var m2 := ToCall(m1, c);
    InFront(m2);
    AwaitsReach(m1, m2, p, c);
    var m3 := EndChild(m2, p);
    var m4 := Drive(m3, p);
    var m5 := AtTest(m4);
    OverReach(m3, m4, c);
    m' := m5;
    AwaitedChild(m', c);
    Through(m, m1, m2);
    Through(m, m2, m3);
    Through(m, m3, m4);
    Through(m, m4, m5);
  }

  lemma InFront(m: Machine)
    requires Inv(m)
    ensures !Over(m.s, m.CurrentId())
  {
    FrontIs(m);
  }

  // ---- which ended tasks can be freed ----

  /** The task in the zombie slot is freed by the next call of schedule(). */
  lemma {:induction false} ReapZombie(m: Machine, t: nat) returns (m': Machine)
    requires Family(m) && m.s.zombie == Some(t)
    ensures Reaches(m, m') && t in m'.s.freed
    decreases if |m.s.ring| > 0 && m.CurrentId() in m.phase then Depth(m) else 0, Left(m)
  {
    hide Ordered, Fits, Next, Enabled, Polite, Depth, Kin, CardOf, Reaches, Left, Discipline, Synced;
    PoliteStep(m);
    var a := Polite(m);
    Take(m, a);
    StepEffect(m, a);
    m' := Next(m, a);
    if !Schedules(a) {
      m' := ReapZombie(Next(m, a), t);
      Through(m, Next(m, a), m');
    }
  }

  /** A task keeps its parent as long as it is on the ring. */
  lemma {:induction false} SameParent(m: Machine, acts: seq<Action>, m': Machine, t: nat)
    requires Family(m) && Leads(m, acts, m') && t < m.nextId && CardOf(m'.s.ring, t).Some?
    ensures CardOf(m.s.ring, t).Some? && CardOf(m'.s.ring, t).value.parent == CardOf(m.s.ring, t).value.parent
    decreases |acts|
  {
    hide Ordered, Fits, Next, CardOf, Kin;
    if acts != [] {
      FamilyStep(m, acts[0]);
      PhaseEffect(m, acts[0]);
      SameParent(Next(m, acts[0]), acts[1..], m', t);
      StepEffect(m, acts[0]);
      FrontIs(m);
    }
  }

  lemma ParentReach(m: Machine, m': Machine, t: nat)
    requires Family(m) && Reaches(m, m') && t < m.nextId && CardOf(m'.s.ring, t).Some?
    ensures CardOf(m.s.ring, t).Some? && CardOf(m'.s.ring, t).value.parent == CardOf(m.s.ring, t).value.parent
  {
    hide Family, CardOf;
    var acts :| Leads(m, acts, m');
    SameParent(m, acts, m', t);
  }

  /** A live parent can always come and collect its dead child. */
  lemma CollectChild(m: Machine, t: nat) returns (m': Machine)
    requires Family(m) && CardOf(m.s.ring, t).Some?
    requires var c := CardOf(m.s.ring, t).value; c.dead && c.parent.Some? && !Over(m.s, c.parent.value)
    ensures Reaches(m, m') && t in m'.s.freed
  {
    hide Ordered, Fits, Next, Reaches, Discipline, Synced;
    var p := CardOf(m.s.ring, t).value.parent.value;
    OnRing(m, t);
    assert Kin(m, t) && Kin(m, p);
    var m1 := ToCall(m, p);
    OverReach(m, m1, t);
    m' := m1;
    if t !in m1.s.freed {
      ParentReach(m, m1, t);
      m' := WaitFor(m1, t);
      Through(m, m1, m');
    }
  }

  lemma WaitFor(m: Machine, t: nat) returns (m': Machine)
    requires Family(m) && At(m).Call? && CardOf(m.s.ring, t).Some?
    requires CardOf(m.s.ring, t).value.dead && CardOf(m.s.ring, t).value.parent == Some(m.CurrentId())
    ensures Reaches(m, m') && t in m'.s.freed
  {
    hide Ordered, Fits, Kin, Reaches;
    FrontIs(m);
    var m1 := Next(m, Block(Child(t)));
    Take(m, Block(Child(t)));
    Take(m1, Finish);
    m' := Next(m1, Finish);
    Through(m, m1, m');
  }

  /** An ended task that is still on the ring will never be freed, whatever happens, if and only if
      it is lost. */
  lemma NeverFreed(m: Machine, t: nat)
    requires Family(m) && CardOf(m.s.ring, t).Some? && CardOf(m.s.ring, t).value.dead
    ensures Lost(m.s, t) <==> forall m' | Reaches(m, m') :: t !in m'.s.freed
  {
    hide Family, CardOf, Over, Leads;
    if Lost(m.s, t) {
      forall m' | Reaches(m, m') ensures t !in m'.s.freed {
        var acts :| Leads(m, acts, m');
        LostForever(m, acts, m', t);
      }
    } else {
      var m';
      if CardOf(m.s.ring, t).value.parent.None? { m' := ReapZombie(m, t); } else { m' := CollectChild(m, t); }
      assert Reaches(m, m') && t in m'.s.freed;
    }
  }

  // ---- over runs ----

  /** Task p ended in one of the first i steps. */
  ghost predicate EndedBy(run: seq<Machine>, acts: seq<Action>, i: nat, p: nat)
    requires i <= |acts| <= |run|
  {
    exists k: nat {:trigger acts[k]} :: k < i && Ends(acts[k]) && |run[k].s.ring| > 0 && run[k].CurrentId() == p
  }

  lemma {:induction false} OverIsEnded(run: seq<Machine>, acts: seq<Action>, idleTop: nat, i: nat, p: nat)
    requires Run(run, acts, idleTop) && i <= |acts|
    ensures Over(run[i].s, p) <==> EndedBy(run, acts, i, p)
  {
    hide Next, Enabled, Over, Inv;
    if i == 0 {
      StartLive(idleTop, p);
    } else {
      OverIsEnded(run, acts, idleTop, i - 1, p);
      RunInv(run, acts, idleTop, i - 1);
      assert Enabled(run[i - 1], acts[i - 1]);
      OverExact(run[i - 1], acts[i - 1], p);
    }
  }

  lemma StartLive(idleTop: nat, p: nat)
    ensures !Over(Start0(idleTop).s, p)
  {
  }

  /** Some unparented task ended strictly between steps j and i. */
  ghost predicate OrphanEnded(run: seq<Machine>, acts: seq<Action>, j: nat, i: nat)
    requires i <= |acts| <= |run|
  {
    exists k: nat {:trigger acts[k]} :: j < k < i && |run[k].s.ring| > 0 && EndsOrphan(run[k], acts[k])
  }

  /** After an unparented task has ended, it is freed or lost by the next call of schedule(): lost if
      that call, too, was the end of an unparented task. */
  lemma {:induction false} OrphanFate(run: seq<Machine>, acts: seq<Action>, idleTop: nat, j: nat, i: nat)
    requires Run(run, acts, idleTop) && j < i <= |acts| && |run[j].s.ring| > 0 && EndsOrphan(run[j], acts[j])
    ensures var t := run[j].CurrentId();
      t in run[i].s.freed || (
        && CardOf(run[i].s.ring, t).Some? && CardOf(run[i].s.ring, t).value.parent.None? && CardOf(run[i].s.ring, t).value.dead
        && (Lost(run[i].s, t) <==> OrphanEnded(run, acts, j, i)))
  {
    hide Next, Enabled, CardOf, Kin, Inv;
    var t, m, a := run[j].CurrentId(), run[i - 1], acts[i - 1];
    FamilyRun(run, acts, idleTop, i - 1);
    assert Enabled(m, a) && run[i] == Next(m, a);
    StepEffect(m, a);
    LostStep(m, a, t);
    FrontIs(m);
    if i > j + 1 {
      OrphanFate(run, acts, idleTop, j, i - 1);
      EndIsFinal(run, acts, idleTop, j, i - 1);
      if t !in m.s.freed { Spared(m, t); }
    }
  }

  lemma Spared(m: Machine, t: nat)
    requires Inv(m) && t !in m.s.freed && CardOf(m.s.ring, t).Some?
    ensures t < m.nextId
  {
    OnRing(m, t);
  }

  lemma {:induction false} RunLeads(run: seq<Machine>, acts: seq<Action>, idleTop: nat, j: nat, i: nat)
    requires Run(run, acts, idleTop) && j <= i <= |acts|
    ensures Leads(run[j], acts[j..i], run[i])
    decreases i - j
  {
    hide Next, Enabled;
    if j < i {
      assert Enabled(run[j], acts[j]) && run[j + 1] == Next(run[j], acts[j]);
      RunLeads(run, acts, idleTop, j + 1, i);
      assert acts[j..i][1..] == acts[j + 1..i] && acts[j..i][0] == acts[j];
    }
  }

  /** Every continuation is the rest of a run, so what is said about continuations is said about runs. */
  lemma {:induction false} RunOn(run: seq<Machine>, acts: seq<Action>, idleTop: nat, more: seq<Action>, m': Machine)
    returns (run': seq<Machine>)
    requires Run(run, acts, idleTop) && Leads(run[|acts|], more, m')
    ensures Run(run', acts + more, idleTop) && run'[..|run|] == run && run'[|acts + more|] == m'
    decreases |more|
  {
    hide Next, Enabled;
    if more == [] {
      run' := run;
      assert acts + more == acts;
    } else {
      var m1 := Next(run[|acts|], more[0]);
      var run1, acts1 := run + [m1], acts + [more[0]];
      forall k {:trigger acts1[k]} | 0 <= k < |acts1|
        ensures |run1[k].s.ring| > 0 && run1[k].CurrentId() in run1[k].phase && Enabled(run1[k], acts1[k]) && run1[k + 1] == Next(run1[k], acts1[k])
      {
        assert k < |acts| ==> acts1[k] == acts[k] && run1[k] == run[k] && run1[k + 1] == run[k + 1];
      }
      assert run1[|acts1|] == m1 && Leads(m1, more[1..], m');
      assert Run(run1, acts1, idleTop);
      run' := RunOn(run1, acts1, idleTop, more[1..], m');
      assert acts1 + more[1..] == acts + more;
      assert run'[..|run|] == run'[..|run1|][..|run|];
    }
  }

  /** The fate of a task that ended at step j and is not freed at moment i of a run. It is never freed
      in any continuation exactly if, when it has a parent, the parent has ended as well, and when
      it has none, another unparented task has ended since. */
  lemma EndedForGood(run: seq<Machine>, acts: seq<Action>, idleTop: nat, j: nat, i: nat)
    requires Run(run, acts, idleTop) && j < i <= |acts| && Ends(acts[j]) && |run[j].s.ring| > 0
    requires run[j].CurrentId() !in run[i].s.freed
    ensures (forall m' | Reaches(run[i], m') :: run[j].CurrentId() !in m'.s.freed) <==>
      match run[j].Current().parent
      case None => OrphanEnded(run, acts, j, i)
      case Some(p) => EndedBy(run, acts, i, p)
  {
    hide Next, Enabled, CardOf, Kin, Inv, Leads, OrphanEnded, EndedBy;
    var t := run[j].CurrentId();
    FamilyRun(run, acts, idleTop, i);
    if run[j].Current().parent.None? {
      OrphanFate(run, acts, idleTop, j, i);
    } else {
      ChildFate(run, acts, idleTop, j, i);
    }
    NeverFreed(run[i], t);
  }

  lemma ChildFate(run: seq<Machine>, acts: seq<Action>, idleTop: nat, j: nat, i: nat)
    requires Run(run, acts, idleTop) && j < i <= |acts| && Ends(acts[j]) && |run[j].s.ring| > 0
    requires run[j].CurrentId() !in run[i].s.freed && run[j].Current().parent.Some?
    ensures var t := run[j].CurrentId();
      && CardOf(run[i].s.ring, t).Some? && CardOf(run[i].s.ring, t).value.dead
      && (Lost(run[i].s, t) <==> EndedBy(run, acts, i, run[j].Current().parent.value))
  {
    hide Next, Enabled, CardOf, Kin, Inv, EndedBy;
    var t, p := run[j].CurrentId(), run[j].Current().parent.value;
    EndIsFinal(run, acts, idleTop, j, i);
    FamilyRun(run, acts, idleTop, j);
    RunLeads(run, acts, idleTop, j, i);
    FrontIs(run[j]);
    Spared(run[j], t) by { OnRing(run[j], t); }
    SameParent(run[j], acts[j..i], run[i], t);
    OverIsEnded(run, acts, idleTop, i, p);
  }
}
