/** The address space in CR3 and the ones that are destroyed: schedule() leaves CR3 alone when it
    turns to a kernel-only task, so CR3 may still name the space of a task that has ended. */
module LoadedSpaces {
  import opened Options
  import opened TaskRing
  import opened SyscallProtocol
  import opened StepEffects
  import opened ProtocolRuns

  /** No task on the ring has this address space. */
  ghost predicate Unowned(s: Sched, c: nat) {
    forall id: nat {:trigger Cr3Of(s.ring, id)} :: Cr3Of(s.ring, id) != c
  }

  /** create_address_space takes a free frame for the PML4: no task on the ring has it. */
  ghost predicate OwnSpace(m: Machine, a: Action) {
    match a
    case Spawn(_, c, _) => c != 0 ==> Unowned(m.s, c)
    case Fork(_, c) => c != 0 && Unowned(m.s, c)
    case Exec(c, _) => c != 0 && Unowned(m.s, c)
    case _ => true
  }

  ghost predicate OwnSpaces(run: seq<Machine>, acts: seq<Action>)
    requires |acts| <= |run|
  {
    forall k {:trigger acts[k]} | 0 <= k < |acts| :: OwnSpace(run[k], acts[k])
  }

  /** No two tasks on the ring have the same address space. */
  ghost predicate SpacesApart(s: Sched) {
    forall x: nat, y: nat {:trigger Cr3Of(s.ring, x), Cr3Of(s.ring, y)} |
      Cr3Of(s.ring, x) != 0 && Cr3Of(s.ring, x) == Cr3Of(s.ring, y) :: x == y
  }

  lemma Cr3Step(m: Machine, a: Action, id: nat)
    requires Inv(m) && Enabled(m, a)
    ensures Cr3Of(Next(m, a).s.ring, id) == 0 || Cr3Of(Next(m, a).s.ring, id) == Cr3Of(m.s.ring, id)
      || (a.Exec? && id == m.CurrentId() && Cr3Of(Next(m, a).s.ring, id) == a.cr3)
      || (Spawns(a) && id == m.nextId && Cr3Of(Next(m, a).s.ring, id) == a.cr3)
  {
    hide Ordered, Fits, Next, CardOf;
    StepEffect(m, a);
    FrontIs(m);
  }

  lemma ApartStep(m: Machine, a: Action)
    requires Inv(m) && Enabled(m, a) && SpacesApart(m.s) && OwnSpace(m, a)
    ensures SpacesApart(Next(m, a).s)
  {
    hide Ordered, Fits, Next, Enabled, CardOf, Cr3Of;
    var r := Next(m, a).s.ring;
    forall x: nat, y: nat | Cr3Of(r, x) != 0 && Cr3Of(r, x) == Cr3Of(r, y) ensures x == y {
      Cr3Step(m, a, x);
      Cr3Step(m, a, y);
    }
  }

  lemma {:induction false} ApartRun(run: seq<Machine>, acts: seq<Action>, idleTop: nat, i: nat)
    requires Run(run, acts, idleTop) && OwnSpaces(run, acts) && i < |run|
    ensures SpacesApart(run[i].s)
  {
    hide Inv, Next, Enabled;
    if i > 0 {
      ApartRun(run, acts, idleTop, i - 1);
      RunInv(run, acts, idleTop, i - 1);
      assert Enabled(run[i - 1], acts[i - 1]) && OwnSpace(run[i - 1], acts[i - 1]);
      ApartStep(run[i - 1], acts[i - 1]);
    }
  }

  /** CR3 stays as it is when the task in front after the step has no address space of its own. */
  lemma Cr3Kept(m: Machine, a: Action)
    requires Inv(m) && Enabled(m, a) && (a.Exec? ==> a.cr3 != 0) && |Next(m, a).s.ring| > 0 && Next(m, a).Current().cr3 == 0
    ensures Next(m, a).cr3 == m.cr3
  {
    hide Ordered, Fits, Reaped, Scheduled;
  }

  lemma FrontCr3(m: Machine)
    requires Inv(m)
    ensures Cr3Of(m.s.ring, m.CurrentId()) == m.Current().cr3 && (m.Current().cr3 != 0 ==> m.cr3 == m.Current().cr3)
  {
    FrontIs(m);
  }

  /** While z is dead on the ring, its space stays loaded as long as tasks without a space of their
      own are in front. */
  lemma LoadedStep(m: Machine, a: Action, z: nat)
    requires Inv(m) && Enabled(m, a) && SpacesApart(m.s) && OwnSpace(m, a)
    requires Over(m.s, z) && Cr3Of(Next(m, a).s.ring, z) == Cr3Of(m.s.ring, z) != 0
    ensures |Next(m, a).s.ring| > 0
    ensures Next(m, a).cr3 == Cr3Of(m.s.ring, z) <==> m.cr3 == Cr3Of(m.s.ring, z) && Next(m, a).Current().cr3 == 0
  {
    hide Ordered, Fits, Next, CardOf, Cr3Of, Over;
    StepInv(m, a);
    OverStep(m, a, z);
    ApartStep(m, a);
    var m' := Next(m, a);
    NotInFront(m', z);
    FrontCr3(m');
    if m'.Current().cr3 == 0 { Cr3Kept(m, a); }
  }

  /** No task with an address space of its own is in front at the moments after j, up to i. */
  ghost predicate KernelOnly(run: seq<Machine>, j: nat, i: nat)
    requires i < |run|
  {
    forall k {:trigger run[k]} | j < k <= i :: |run[k].s.ring| > 0 && run[k].Current().cr3 == 0
  }

  /** Task z ends at step j. As long as it is on the ring, CR3 names its space exactly if no task
      with a space of its own has come to the front since. */
  lemma {:induction false} LoadedSince(run: seq<Machine>, acts: seq<Action>, idleTop: nat, j: nat, i: nat)
    requires Run(run, acts, idleTop) && OwnSpaces(run, acts) && j < i <= |acts|
    requires Ends(acts[j]) && |run[j].s.ring| > 0 && run[j].Current().cr3 != 0 && run[j].CurrentId() !in run[i].s.freed
    ensures Cr3Of(run[i].s.ring, run[j].CurrentId()) == run[j].Current().cr3
    ensures run[i].cr3 == run[j].Current().cr3 <==> KernelOnly(run, j, i)
  {
    hide Inv, Next, Enabled, CardOf, Cr3Of, Over;
    var z, m, a := run[j].CurrentId(), run[i - 1], acts[i - 1];
    RunInv(run, acts, idleTop, i - 1);
    assert Enabled(m, a) && OwnSpace(m, a) && run[i] == Next(m, a);
    ApartRun(run, acts, idleTop, i - 1);
    StillThere(m, a, z);
    if i == j + 1 {
      EndLoaded(m, a);
    } else {
      EndIsFinal(run, acts, idleTop, j, i - 1);
      LoadedSince(run, acts, idleTop, j, i - 1);
      DeadCr3(m, a, z);
      LoadedStep(m, a, z);
      assert KernelOnly(run, j, i) <==> KernelOnly(run, j, i - 1) && run[i].Current().cr3 == 0;
    }
  }

  lemma StillThere(m: Machine, a: Action, z: nat)
    requires Inv(m) && Enabled(m, a) && z !in Next(m, a).s.freed
    ensures Frees(m, a) != Some(z) && z !in m.s.freed
  {
    hide Inv, Next, CardOf;
    StepEffect(m, a);
  }

  lemma DeadCr3(m: Machine, a: Action, z: nat)
    requires Inv(m) && Enabled(m, a) && Over(m.s, z) && z !in Next(m, a).s.freed
    ensures Cr3Of(Next(m, a).s.ring, z) == Cr3Of(m.s.ring, z)
  {
    hide Ordered, Fits, Next, CardOf;
    StepEffect(m, a);
    NotInFront(m, z);
    NextIsNew(m);
  }

  lemma EndLoaded(m: Machine, a: Action)
    requires Inv(m) && Enabled(m, a) && Ends(a) && m.Current().cr3 != 0 && SpacesApart(m.s)
    ensures Cr3Of(Next(m, a).s.ring, m.CurrentId()) == m.Current().cr3 && |Next(m, a).s.ring| > 0
    ensures Next(m, a).cr3 == m.Current().cr3 <==> Next(m, a).Current().cr3 == 0
  {
    hide Ordered, Fits, Next, CardOf, Over;
    StepInv(m, a);
    StepEffect(m, a);
    NotTheZombie(m);
    EndStep(m, a);
    ApartStep(m, a);
    var m' := Next(m, a);
    NotInFront(m', m.CurrentId());
    FrontCr3(m);
    FrontCr3(m');
    if m'.Current().cr3 == 0 { Cr3Kept(m, a); }
  }

  /** The step destroys the address space that CR3 names while it does so. */
  ghost predicate ReleasesLoaded(m: Machine, a: Action)
    requires |m.s.ring| > 0 && m.CurrentId() in m.phase && Enabled(m, a)
  {
    Next(m, a).s.released != m.s.released && Next(m, a).s.released == m.s.released + [m.cr3] && !a.Exec?
  }

  /** A reap destroys the space of the task in the zombie slot, and that is the loaded one exactly if
      it is the one that CR3 names. */
  lemma ReapReleases(m: Machine, a: Action)
    requires Inv(m) && Enabled(m, a) && Schedules(a)
    ensures ReleasesLoaded(m, a) <==>
      m.s.zombie.Some? && !EndsOrphan(m, a) && Cr3Of(m.s.ring, m.s.zombie.value) != 0 && Cr3Of(m.s.ring, m.s.zombie.value) == m.cr3
  {
    hide Ordered, Fits, Next, CardOf, Cr3Of;
    StepEffect(m, a);
    if Frees(m, a).Some? {
      var c := Cr3Of(m.s.ring, Frees(m, a).value);
      assert c != 0 ==> (m.s.released + [c])[|m.s.released|] == c && (m.s.released + [m.cr3])[|m.s.released|] == m.cr3;
    }
  }

  /** Over a run: the step i that frees z, which ended at step j with a space of its own, destroys the
      loaded space exactly if no task with a space of its own has come to the front in between. */
  lemma ReapReleasesLoaded(run: seq<Machine>, acts: seq<Action>, idleTop: nat, j: nat, i: nat)
    requires Run(run, acts, idleTop) && OwnSpaces(run, acts) && j < i < |acts|
    requires Ends(acts[j]) && |run[j].s.ring| > 0 && run[j].Current().cr3 != 0
    requires |run[i].s.ring| > 0 && run[i].CurrentId() in run[i].phase && Enabled(run[i], acts[i])
    requires Frees(run[i], acts[i]) == Some(run[j].CurrentId())
    ensures ReleasesLoaded(run[i], acts[i]) <==> KernelOnly(run, j, i)
    ensures run[i + 1].s.released == run[i].s.released + [run[j].Current().cr3]
  {
    hide Inv, Next, CardOf, Cr3Of, KernelOnly;
    var m, a, c := run[i], acts[i], run[j].Current().cr3;
    RunInv(run, acts, idleTop, i);
    StepEffect(m, a);
    FreesDead(m, a, run[j].CurrentId());
    LoadedSince(run, acts, idleTop, j, i);
    assert (m.s.released + [c])[|m.s.released|] == c && (m.s.released + [m.cr3])[|m.s.released|] == m.cr3;
  }

  /** wait4 never destroys the loaded space: its caller's own space is loaded. */
  lemma CollectKeepsLoaded(m: Machine, a: Action)
    requires Inv(m) && Enabled(m, a) && SpacesApart(m.s) && a.Finish? && m.Current().cr3 != 0
    ensures !ReleasesLoaded(m, a) && Next(m, a).cr3 == m.cr3
  {
    hide Ordered, Fits, CardOf, Cr3Of, Next;
    StepEffect(m, a);
    FrontCr3(m);
    FrontIs(m);
    if Frees(m, a).Some? {
      var z := Frees(m, a).value;
      FreesDead(m, a, z);
      NotSelf(m, z);
      var c := Cr3Of(m.s.ring, z);
      assert c != 0 ==> (m.s.released + [c])[|m.s.released|] == c && (m.s.released + [m.cr3])[|m.s.released|] == m.cr3;
    }
    FinishCr3(m);
  }

  lemma NotSelf(m: Machine, z: nat)
    requires Inv(m) && 0 < Index(m.s.ring, z)
    ensures z != m.CurrentId()
  {
  }

  lemma FinishCr3(m: Machine)
    requires Inv(m) && Enabled(m, Finish)
    ensures Next(m, Finish).cr3 == m.cr3
  {
  }

  /** execve loads the new space before it destroys the old one. */
  lemma ExecKeepsLoaded(m: Machine, a: Action)
    requires Inv(m) && Enabled(m, a) && a.Exec? && OwnSpace(m, a) && m.Current().cr3 != 0
    ensures Next(m, a).s.released == m.s.released + [m.cr3] && Next(m, a).cr3 != m.cr3
  {
    hide Ordered, Fits, CardOf;
    FrontCr3(m);
  }
}
