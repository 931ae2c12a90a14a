/** What each step of the protocol does to one task, told by its number: the order of the ring and
    the alternation of Ready and Running are left out, everything that outlasts a switch is kept. */
module StepEffects {
  import opened Options
  import opened TaskRing
  import opened SyscallProtocol

  datatype Card = Card(parent: Option<nat>, top: nat, fsBase: nat, cr3: nat, exitCode: nat, dead: bool)

  function CardOf(ring: seq<View>, id: nat): Option<Card> {
    var i := Index(ring, id);
    if i < |ring| then Some(CardAt(ring[i])) else None
  }

  function CardAt(v: View): Card { Card(v.parent, v.top, v.fsBase, v.cr3, v.exitCode, v.state.Dead?) }

  lemma CardIs(ring: seq<View>, i: nat)
    requires Distinct(ring) && i < |ring|
    ensures CardOf(ring, ring[i].id) == Some(CardAt(ring[i]))
  {
    IndexIs(ring, ring[i].id, i);
  }

  // ---- the pieces of a step ----

  lemma CutCard(ring: seq<View>, k: nat, id: nat)
    requires Distinct(ring) && k < |ring|
    ensures CardOf(Cut(ring, k), id) == if id == ring[k].id then None else CardOf(ring, id)
  {
    if id != ring[k].id {
      CutIndex(ring, k, id);
    } else {
      var r := Cut(ring, k);
      assert forall j | 0 <= j < |r| :: r[j] == ring[if j < k then j else j + 1];
    }
  }

  lemma SwitchCard(ring: seq<View>, k: nat, id: nat)
    requires Distinct(ring) && 0 < k < |ring| && ring[k].state.Ready?
    ensures CardOf(SwitchTo(ring, k), id) == CardOf(ring, id)
  {
    var i, r, n := Index(ring, id), SwitchTo(ring, k), |ring|;
    SwitchMoves(ring, k);
    if i < n {
      SwitchIndex(ring, k, id);
      assert ring[i].id == id;
    } else {
      forall j: nat | j < n ensures r[j].id != id {
        var j0: nat := if j < n - k then j + k else j + k - n;
        assert r[Turned(j0, k, n)].id == ring[j0].id;
      }
    }
  }

  lemma FrontCard(ring: seq<View>, v: View, id: nat)
    requires Distinct(ring) && |ring| > 0 && v.id == ring[0].id
    ensures CardOf(ring[0 := v], id) == if id == v.id then Some(CardAt(v)) else CardOf(ring, id)
  {
    FieldIndex(ring, v, id);
    if id == v.id { IndexIs(ring, id, 0); }
  }

  lemma BornCard(s: Sched, v: View, id: nat)
    requires Distinct(s.ring) && |s.ring| > 0 && Index(s.ring, v.id) == |s.ring|
    ensures CardOf(Spawned(s, v).ring, id) == if id == v.id then Some(CardAt(v)) else CardOf(s.ring, id)
  {
    var r := Spawned(s, v).ring;
    SpawnedIndex(s, v, s.ring[0].id);
    if id == v.id {
      IndexIs(r, id, 1);
    } else if Index(s.ring, id) < |s.ring| {
      SpawnedIndex(s, v, id);
    } else {
      forall j: nat | j < |r| ensures r[j].id != id {
        assert r[j] == if j == 0 then s.ring[0] else if j == 1 then v else s.ring[j - 1];
      }
    }
  }

  // ---- schedule() ----

  function Cr3Of(ring: seq<View>, id: nat): nat {
    match CardOf(ring, id)
    case None => 0
    case Some(c) => c.cr3
  }

  /** The task that schedule() frees. */
  function Reapable(s: Sched): Option<nat>
    requires |s.ring| > 0
  {
    if s.zombie == Some(s.ring[0].id) then None else s.zombie
  }

  /** schedule() frees the task in the zombie slot, unless it is the one in front, and empties the
      slot if it does; no other task changes. */
  ghost predicate Schedule(s: Sched, s': Sched)
    requires |s.ring| > 0
  {
    var z := Reapable(s);
    && s'.zombie == (if z.Some? then None else s.zombie)
    && s'.freed == s.freed + (if z.Some? then {z.value} else {})
    && s'.released == (if z.Some? then Release(s.released, Cr3Of(s.ring, z.value)) else s.released)
    && (forall id: nat {:trigger CardOf(s'.ring, id)} :: CardOf(s'.ring, id) == if z == Some(id) then None else CardOf(s.ring, id))
  }

  lemma ReapedCards(s: Sched, leaving: bool)
    requires Ordered(s, leaving)
    ensures Schedule(s, Reaped(s))
  {
    if s.zombie.Some? && s.zombie.value != s.ring[0].id {
      var k := Index(s.ring, s.zombie.value);
      forall id: nat ensures CardOf(Cut(s.ring, k), id) == if id == s.ring[k].id then None else CardOf(s.ring, id) {
        CutCard(s.ring, k, id);
      }
    }
  }

  lemma SwitchCards(s: Sched, s1: Sched, k: nat)
    requires |s.ring| > 0 && Schedule(s, s1) && Distinct(s1.ring) && 0 < k < |s1.ring| && s1.ring[k].state.Ready?
    ensures Schedule(s, s1.(ring := SwitchTo(s1.ring, k)))
  {
    hide SwitchTo, CardOf;
    forall id: nat ensures CardOf(SwitchTo(s1.ring, k), id) == CardOf(s1.ring, id) { SwitchCard(s1.ring, k, id); }
  }

  lemma ScheduleCards(s: Sched, leaving: bool)
    requires Ordered(s, leaving)
    ensures Schedulable(s) && Schedule(s, Scheduled(s))
  {
    hide Schedule, SwitchTo, Reaped;
    ReapedCards(s, leaving);
    ScheduledIs(s, leaving);
    PickIs(s, leaving);
    ReapedOrdered(s, leaving);
    var r := Reaped(s);
    var k := FirstReady(r.ring, 1);
    if k < |r.ring| { SwitchCards(s, r, k); }
  }

  // ---- the steps ----

  predicate Schedules(a: Action) { a.Preempt? || a.Yield? || a.Exit? || a.Fall? }
  predicate Spawns(a: Action) { a.Spawn? || a.Fork? }
  predicate Ends(a: Action) { a.Exit? || a.Fall? }

  /** The end of an unparented task. */
  predicate EndsOrphan(m: Machine, a: Action)
    requires |m.s.ring| > 0
  {
    Ends(a) && m.Current().parent.None?
  }

  /** The task that a step frees: schedule() the one in the zombie slot, unless the running task has
      just put itself there; the end of a wait the child it waited for. */
  function Frees(m: Machine, a: Action): Option<nat>
    requires |m.s.ring| > 0 && m.CurrentId() in m.phase && Enabled(m, a)
  {
    if Schedules(a) then (if EndsOrphan(m, a) then None else m.s.zombie)
    else if a.Finish? && At(m).why.Child? then Some(At(m).why.id)
    else None
  }

  /** The running task after the step, which it survives on the ring: sys_exit leaves the code for the
      parent, execve a new space, arch_prctl a TLS base. */
  function FrontAfter(m: Machine, a: Action): Card
    requires |m.s.ring| > 0
  {
    var c := CardAt(m.Current());
    match a
    case Exit(code) => c.(dead := true, exitCode := code)
    case Fall => c.(dead := true)
    case Exec(cr3, _) => c.(cr3 := cr3)
    case SetFs(base) => c.(fsBase := base)
    case _ => c
  }

  /** A forked task has a parent and its TLS base. */
  function NewTask(m: Machine, a: Action): Card
    requires |m.s.ring| > 0 && Spawns(a)
  {
    if a.Fork? then Card(Some(m.CurrentId()), a.top, m.Current().fsBase, a.cr3, 0, false)
    else Card(None, a.top, 0, a.cr3, 0, false)
  }

  /** Everything that a step does to the numbers: one task may be freed, the running one may change,
      one may be new, and all the others are as they were. */
  ghost predicate Effect(m: Machine, a: Action, s': Sched)
    requires |m.s.ring| > 0 && m.CurrentId() in m.phase && Enabled(m, a)
  {
    var z := Frees(m, a);
    && s'.zombie == (if EndsOrphan(m, a) then Some(m.CurrentId()) else if Schedules(a) then None else m.s.zombie)
    && s'.freed == m.s.freed + (if z.Some? then {z.value} else {})
    && s'.released == (if z.Some? then Release(m.s.released, Cr3Of(m.s.ring, z.value))
                       else if a.Exec? then Release(m.s.released, m.Current().cr3) else m.s.released)
    && (forall id: nat {:trigger CardOf(s'.ring, id)} :: CardOf(s'.ring, id) ==
          if z == Some(id) then None
          else if id == m.CurrentId() then Some(FrontAfter(m, a))
          else if Spawns(a) && id == m.nextId then Some(NewTask(m, a))
          else CardOf(m.s.ring, id))
  }

  /** The task in the zombie slot is dead, so it is not the running one. */
  lemma NotTheZombie(m: Machine)
    requires Inv(m)
    ensures m.s.zombie != Some(m.CurrentId())
  {
    assert Placed(m.s, 0, false);
    IndexIs(m.s.ring, m.CurrentId(), 0);
  }

  lemma {:induction false} FrontIs(m: Machine)
    requires Inv(m)
    ensures CardOf(m.s.ring, m.CurrentId()) == Some(CardAt(m.Current())) && !m.Current().state.Dead?
  {
    assert Placed(m.s, 0, false);
    CardIs(m.s.ring, 0);
  }

  lemma SwitchEffect(m: Machine, a: Action, m1: Machine)
    requires Inv(m) && Enabled(m, a) && (a.Preempt? || a.Yield?) && m1.s == m.s
    ensures Effect(m, a, Rescheduled(m1).s)
  {
    hide Ordered, Fits, CardOf;
    NotTheZombie(m);
    FrontIs(m);
    ScheduleCards(m.s, false);
  }

  lemma EndEffect(m: Machine, a: Action, m1: Machine, code: nat)
    requires Inv(m) && Enabled(m, a) && Ends(a) && m1.s == Ended(WithCode(m.s, code))
    requires code == if a.Exit? then a.code else m.Current().exitCode
    ensures Effect(m, a, Rescheduled(m1).s)
  {
    hide Ordered, Fits, CardOf, Scheduled;
    NotTheZombie(m);
    EndOrdered(m, code);
    var v := m1.s.ring[0];
    forall id: nat ensures CardOf(m1.s.ring, id) == if id == v.id then Some(CardAt(v)) else CardOf(m.s.ring, id) {
      EndCard(m, code, id);
    }
    ScheduleCards(m1.s, true);
    assert Reapable(m1.s) == Frees(m, a);
    if m.s.zombie.Some? { assert Cr3Of(m1.s.ring, m.s.zombie.value) == Cr3Of(m.s.ring, m.s.zombie.value); }
  }

  lemma EndOrdered(m: Machine, code: nat)
    requires Inv(m) && At(m) != Kernel(Forever)
    ensures Ordered(Ended(WithCode(m.s, code)), true)
  {
    var v := m.s.ring[0].(exitCode := code);
    FrontFields(m, v);
    assert Fits(m, 0);
    EndedOrdered(SetFront(m, v).s);
  }

  lemma EndCard(m: Machine, code: nat, id: nat)
    requires Ordered(m.s, false)
    ensures var s1 := Ended(WithCode(m.s, code));
      CardOf(s1.ring, id) == if id == s1.ring[0].id then Some(CardAt(s1.ring[0])) else CardOf(m.s.ring, id)
  {
    var s1 := Ended(WithCode(m.s, code));
    FrontCard(m.s.ring, s1.ring[0], id);
    assert s1.ring == m.s.ring[0 := s1.ring[0]];
  }

  /** A step that stores into the running task only. */
  lemma FrontEffect(m: Machine, a: Action, v: View, s': Sched)
    requires Inv(m) && Enabled(m, a) && !Schedules(a) && !Spawns(a) && Frees(m, a).None?
    requires v.id == m.CurrentId() && CardAt(v) == FrontAfter(m, a)
    requires s'.ring == m.s.ring[0 := v] && s'.zombie == m.s.zombie && s'.freed == m.s.freed
    requires s'.released == if a.Exec? then Release(m.s.released, m.Current().cr3) else m.s.released
    ensures Effect(m, a, s')
  {
    hide Fits, CardOf, FrontAfter, Frees;
    forall id: nat ensures CardOf(s'.ring, id) == if id == v.id then Some(CardAt(v)) else CardOf(m.s.ring, id) {
      FrontCard(m.s.ring, v, id);
    }
    assert s'.freed == m.s.freed + {};
  }

  lemma BornEffect(m: Machine, a: Action, v: View)
    requires Inv(m) && Enabled(m, a) && Spawns(a) && v.id == m.nextId && CardAt(v) == NewTask(m, a)
    ensures Effect(m, a, Spawned(m.s, v))
  {
    hide Fits, CardOf;
    Unused(m);
    FrontIs(m);
    FrontBelow(m);
    forall id: nat ensures CardOf(Spawned(m.s, v).ring, id) == if id == v.id then Some(CardAt(v)) else CardOf(m.s.ring, id) {
      BornCard(m.s, v, id);
    }
  }

  lemma FrontBelow(m: Machine)
    requires Inv(m)
    ensures m.CurrentId() < m.nextId
  {
    assert Fits(m, 0);
  }

  lemma CollectEffect(m: Machine, a: Action)
    requires Inv(m) && Enabled(m, a) && a.Finish? && At(m).why.Child?
    ensures Effect(m, a, Next(m, a).s)
  {
    hide Fits, CardOf;
    FrontIs(m);
    var c := At(m).why.id;
    var k := Index(m.s.ring, c);
    CollectedCard(m, k);
    forall id: nat ensures CardOf(Cut(m.s.ring, k), id) == if id == c then None else CardOf(m.s.ring, id) {
      CutCard(m.s.ring, k, id);
    }
    var s' := Next(m, a).s;
    assert s' == Freed(m.s, k) && Frees(m, a) == Some(c);
    assert s'.zombie == m.s.zombie && s'.freed == m.s.freed + {c} && s'.released == Release(m.s.released, Cr3Of(m.s.ring, c));
  }

  lemma CollectedCard(m: Machine, k: nat)
    requires Inv(m) && 0 < k < |m.s.ring|
    ensures Cr3Of(m.s.ring, m.s.ring[k].id) == m.s.ring[k].cr3 && m.s.ring[k].id != m.CurrentId()
  {
    CardIs(m.s.ring, k);
  }

  /** The effect of every step. */
  lemma StepEffect(m: Machine, a: Action)
    requires Inv(m) && Enabled(m, a)
    ensures Effect(m, a, Next(m, a).s)
  {
    hide Ordered, Fits, Effect, Rescheduled, Discipline, Synced;
    match a
    case Preempt => SwitchEffect(m, a, m);
    case Yield => SwitchEffect(m, a, Move(m.(kgs := Local), Yielding(At(m).entry, At(m).saved, At(m).why)));
    case Exit(code) => EndEffect(m, a, Move(Swapgs(m).(s := Ended(WithCode(m.s, code))), Gone), code);
    case Fall =>
      assert WithCode(m.s, m.s.ring[0].exitCode) == m.s;
      EndEffect(m, a, Move(m.(s := Ended(m.s)), Gone), m.s.ring[0].exitCode);
    case Finish =>
      if At(m).why.Child? {
        CollectEffect(m, a);
      } else {
        assert m.s.ring[0 := m.Current()] == m.s.ring;
        FrontEffect(m, a, m.Current(), Next(m, a).s);
      }
    case Spawn(top, cr3, start) => BornEffect(m, a, View(m.nextId, Ready, None, top, 0, cr3, 0));
    case Fork(top, cr3) => BornEffect(m, a, View(m.nextId, Ready, Some(m.CurrentId()), top, m.Current().fsBase, cr3, 0));
    case Exec(cr3, _) => FrontEffect(m, a, m.Current().(cr3 := cr3), Next(m, a).s);
    case SetFs(base) => FrontEffect(m, a, m.Current().(fsBase := base), Next(m, a).s);
    case _ =>
      assert m.s.ring[0 := m.Current()] == m.s.ring;
      FrontEffect(m, a, m.Current(), Next(m, a).s);
  }
}
