/** What becomes of a task that has ended: which ended tasks can still be freed, and which stay dead
    on the ring for good. */
module TaskFates {
  import opened Options
  import opened TaskRing
  import opened SyscallProtocol
  import opened StepEffects
  import opened ProtocolRuns

  // ---- families ----

  /** Every number that was given out is on the ring or freed; parents are older than their children,
      have been in ring 3, and their children start there too. */
  ghost predicate Kin(m: Machine, id: nat) {
    id in m.phase && match CardOf(m.s.ring, id)
      case None => id in m.s.freed
      case Some(c) => c.parent.Some? ==>
        var p := c.parent.value;
        p < id && p in m.phase && !m.phase[p].Kernel? && (m.phase[id].Kernel? ==> m.phase[id].start.Forked?)
  }

  ghost predicate Family(m: Machine) {
    && Inv(m) && (m.ticksLeft > 0 || m.resched)
    && forall id: nat {:trigger Kin(m, id)} | id < m.nextId :: Kin(m, id)
  }

  lemma OnRing(m: Machine, t: nat)
    requires Inv(m) && CardOf(m.s.ring, t).Some?
    ensures t !in m.s.freed && t < m.nextId && t in m.phase
    ensures m.phase[t].Gone? <==> CardOf(m.s.ring, t).value.dead
  {
    assert Placed(m.s, Index(m.s.ring, t), false) && Fits(m, Index(m.s.ring, t));
  }

  lemma StartFamily(idleTop: nat)
    ensures Family(Start0(idleTop))
  {
    StartInv(idleTop);
    var m := Start0(idleTop);
    CardIs(m.s.ring, 0);
    CardIs(m.s.ring, 1);
  }

  /** Only the running task changes its phase, and never back to where it started; a new task starts
      in the kernel. */
  lemma PhaseEffect(m: Machine, a: Action)
    requires Inv(m) && Enabled(m, a)
    ensures var m' := Next(m, a);
      && m'.nextId == (if Spawns(a) then m.nextId + 1 else m.nextId)
      && (m'.ticksLeft > 0 || m'.resched || (m.ticksLeft == 0 && !m.resched))
      && (forall id {:trigger id in m'.phase} | id in m.phase && !(Spawns(a) && id == m.nextId) ::
            && id in m'.phase && (id != m.CurrentId() ==> m'.phase[id] == m.phase[id])
            && (m'.phase[id].Kernel? ==> m'.phase[id] == m.phase[id]))
      && (Spawns(a) ==> m.nextId in m'.phase && m'.phase[m.nextId].Kernel?)
      && (a.Fork? ==> m'.phase[m.nextId].start.Forked? && At(m).Call?)
  {
    hide Ordered, Fits, Scheduled, Reaped;
  }

  lemma KinStep(m: Machine, a: Action, id: nat)
    requires Family(m) && Enabled(m, a) && id < Next(m, a).nextId
    ensures Kin(Next(m, a), id)
  {
    hide Ordered, Fits, Next, CardOf, Discipline, Synced;
    StepEffect(m, a);
    PhaseEffect(m, a);
    FrontIs(m);
    NextIsNew(m);
    OnRing(m, m.CurrentId());
    if id < m.nextId {
      assert Kin(m, id);
      var m' := Next(m, a);
      var c := CardOf(m'.s.ring, id);
      assert id in m'.phase && (c.None? ==> id in m'.s.freed);
      if c.Some? && c.value.parent.Some? {
        assert id in m.phase && (id != m.CurrentId() ==> m'.phase[id] == m.phase[id]);
        assert CardOf(m.s.ring, id).Some? && CardOf(m.s.ring, id).value.parent == c.value.parent;
        assert c.value.parent.value in m'.phase;
      }
    }
  }

  lemma FamilyStep(m: Machine, a: Action)
    requires Family(m) && Enabled(m, a)
    ensures Family(Next(m, a))
  {
    hide Ordered, Fits, Next, Kin;
    StepInv(m, a);
    PhaseEffect(m, a);
    forall id: nat | id < Next(m, a).nextId ensures Kin(Next(m, a), id) { KinStep(m, a, id); }
  }

  lemma {:induction false} FamilyRun(run: seq<Machine>, acts: seq<Action>, idleTop: nat, i: nat)
    requires Run(run, acts, idleTop) && i < |run|
    ensures Family(run[i])
  {
    hide Next, Inv, Kin, Enabled;
    if i == 0 {
      StartFamily(idleTop);
    } else {
      FamilyRun(run, acts, idleTop, i - 1);
      assert Enabled(run[i - 1], acts[i - 1]);
      FamilyStep(run[i - 1], acts[i - 1]);
    }
  }

  // ---- lost tasks ----

  /** A dead task on the ring that nobody will free: its parent has ended too, or it has none and
      the zombie slot names another task or nobody. */
  ghost predicate Lost(s: Sched, t: nat) {
    match CardOf(s.ring, t)
    case None => false
    case Some(c) => c.dead && (if c.parent.None? then s.zombie != Some(t) else Over(s, c.parent.value))
  }

  /** The running task ends: this loses an unparented task that waits in the zombie slot if the
      running one is unparented as well, every dead child of the running task, and the running task
      itself if its parent has ended before. */
  ghost predicate Loses(m: Machine, a: Action, t: nat)
    requires |m.s.ring| > 0
  {
    Ends(a) && match CardOf(m.s.ring, t)
      case None => false
      case Some(c) =>
        if t == m.CurrentId() then c.parent.Some? && Over(m.s, c.parent.value)
        else c.dead && (if c.parent.None? then m.Current().parent.None? && m.s.zombie == Some(t) else c.parent.value == m.CurrentId())
  }

  /** A task is over after a step if it was before or is the one that ends. */
  lemma OverExact(m: Machine, a: Action, t: nat)
    requires Inv(m) && Enabled(m, a)
    ensures Over(Next(m, a).s, t) <==> Over(m.s, t) || (Ends(a) && t == m.CurrentId())
  {
    hide Ordered, Fits, Next, CardOf;
    if Over(m.s, t) { OverStep(m, a, t); }
    if Ends(a) { EndStep(m, a); }
    StepEffect(m, a);
    FrontIs(m);
    if Frees(m, a).Some? { FreesDead(m, a, Frees(m, a).value); }
  }

  /** What a step frees was not lost. */
  lemma FreesNoLost(m: Machine, a: Action, t: nat)
    requires Inv(m) && Enabled(m, a) && Frees(m, a) == Some(t)
    ensures !Lost(m.s, t) && !Loses(m, a, t)
  {
    FreesDead(m, a, t);
    if a.Finish? {
      assert Fits(m, 0) && Watched(m, m.CurrentId(), t);
      FrontIs(m);
    } else {
      assert m.s.zombie == Some(t);
      assert m.s.ring[Index(m.s.ring, t)].parent.None?;
    }
  }

  /** A step loses exactly those tasks. */
  lemma LostStep(m: Machine, a: Action, t: nat)
    requires Family(m) && Enabled(m, a)
    ensures Lost(Next(m, a).s, t) <==> Lost(m.s, t) || Loses(m, a, t)
  {
    hide Ordered, Fits, Next, CardOf, Over;
    StepEffect(m, a);
    FrontIs(m);
    NotTheZombie(m);
    NextIsNew(m);
    if Frees(m, a) == Some(t) {
      FreesNoLost(m, a, t);
    } else if CardOf(m.s.ring, t).Some? && CardOf(m.s.ring, t).value.parent.Some? {
      OverExact(m, a, CardOf(m.s.ring, t).value.parent.value);
      NotOverSelf(m);
      OnRing(m, t);
      assert Kin(m, t);
    }
  }

  lemma NotOverSelf(m: Machine)
    requires Inv(m)
    ensures !Over(m.s, m.CurrentId())
  {
    FrontIs(m);
  }

  // ---- continuations ----

  /** The actions lead from m to m'. */
  ghost predicate Leads(m: Machine, acts: seq<Action>, m': Machine)
    decreases |acts|
  {
    if acts == [] then m' == m
    else |m.s.ring| > 0 && m.CurrentId() in m.phase && Enabled(m, acts[0]) && Leads(Next(m, acts[0]), acts[1..], m')
  }

  ghost predicate Reaches(m: Machine, m': Machine) {
    exists acts :: Leads(m, acts, m')
  }

  lemma {:induction false} Join(m: Machine, a: seq<Action>, m1: Machine, b: seq<Action>, m2: Machine)
    requires Leads(m, a, m1) && Leads(m1, b, m2)
    ensures Leads(m, a + b, m2)
    decreases |a|
  {
    hide Next, Enabled;
    if a == [] {
      assert a + b == b;
    } else {
      Join(Next(m, a[0]), a[1..], m1, b, m2);
      assert (a + b)[1..] == a[1..] + b;
    }
  }

  lemma Through(m: Machine, m1: Machine, m2: Machine)
    requires Reaches(m, m1) && Reaches(m1, m2)
    ensures Reaches(m, m2)
  {
    hide Leads;
    var a :| Leads(m, a, m1);
    var b :| Leads(m1, b, m2);
    Join(m, a, m1, b, m2);
  }

  lemma Step(m: Machine, a: Action)
    requires |m.s.ring| > 0 && m.CurrentId() in m.phase && Enabled(m, a)
    ensures Reaches(m, Next(m, a))
  {
    hide Next, Enabled;
    assert Leads(Next(m, a), [][..], Next(m, a));
    assert Leads(m, [a], Next(m, a));
  }

  /** A lost task is never freed, whatever happens. */
  lemma {:induction false} LostForever(m: Machine, acts: seq<Action>, m': Machine, t: nat)
    requires Family(m) && Leads(m, acts, m') && Lost(m.s, t)
    ensures Family(m') && Lost(m'.s, t) && t !in m'.s.freed
    decreases |acts|
  {
    hide Ordered, Fits, Next, CardOf, Over;
    if acts == [] {
      OnRing(m, t);
    } else {
      FamilyStep(m, acts[0]);
      LostStep(m, acts[0], t);
      LostForever(Next(m, acts[0]), acts[1..], m', t);
    }
  }
}
