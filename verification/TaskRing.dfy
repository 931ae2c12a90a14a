/** The scheduler's ring as a value: the running task first, the others in the order in which the
    links lead through them. */
module TaskRing {
  import opened Options

  datatype State = Ready | Running | Dead

  /** What the scheduler keeps about a task. `top` is the top of its kernel stack, 0 for the boot
      task; `cr3` is 0 for a kernel-only task. */
  datatype View = View(id: nat, state: State, parent: Option<nat>, top: nat, fsBase: nat, cr3: nat, exitCode: nat)

  /** `freed` holds the tasks that were freed, `released` the address spaces destroyed, in order. */
  datatype Sched = Sched(ring: seq<View>, idle: nat, zombie: Option<nat>, freed: set<nat>, released: seq<nat>)

  /** The position of the task with this id, or the length of the ring. */
  function Index(ring: seq<View>, id: nat): (i: nat)
    ensures i <= |ring|
    ensures i < |ring| ==> ring[i].id == id
    ensures forall j | 0 <= j < i :: ring[j].id != id
  {
    if ring == [] then 0 else if ring[0].id == id then 0 else 1 + Index(ring[1..], id)
  }

  /** The first Ready task from position k on, or the length of the ring. */
  function FirstReady(ring: seq<View>, k: nat): (i: nat)
    requires k <= |ring|
    ensures k <= i <= |ring|
    ensures i < |ring| ==> ring[i].state.Ready?
    ensures forall j | k <= j < i :: !ring[j].state.Ready?
    decreases |ring| - k
  {
    if k == |ring| || ring[k].state.Ready? then k else FirstReady(ring, k + 1)
  }

  function Cut(ring: seq<View>, i: nat): seq<View>
    requires i < |ring|
  {
    ring[..i] + ring[i + 1..]
  }

  /** Destroying the address space with this PML4, unless there is none. */
  function Release(released: seq<nat>, cr3: nat): seq<nat> {
    if cr3 == 0 then released else released + [cr3]
  }

  /** unlink_from_ring and free_task. */
  function Freed(s: Sched, i: nat): Sched
    requires i < |s.ring|
  {
    s.(ring := Cut(s.ring, i), freed := s.freed + {s.ring[i].id}, released := Release(s.released, s.ring[i].cr3))
  }

  /** reap_zombie. */
  function Reaped(s: Sched): Sched
    requires |s.ring| > 0 && (s.zombie.Some? ==> Index(s.ring, s.zombie.value) < |s.ring|)
  {
    if s.zombie.None? || s.zombie.value == s.ring[0].id then s
    else Freed(s, Index(s.ring, s.zombie.value)).(zombie := None)
  }

  /** The old task steps back, unless it is dead, and the ring turns to task k. */
  function SwitchTo(ring: seq<View>, k: nat): seq<View>
    requires k < |ring|
  {
    var back := if ring[0].state.Running? then ring[0].(state := Ready) else ring[0];
    var r := ring[0 := back];
    var r' := r[k := r[k].(state := Running)];
    r'[k..] + r'[..k]
  }

  /** The position schedule() settles on; 0 means there is nothing to switch. */
  function Pick(ring: seq<View>, idle: nat): (k: nat)
    requires |ring| > 0
    ensures k <= |ring|
  {
    var k := FirstReady(ring, 1);
    if k < |ring| then k else if ring[0].state.Running? then 0 else Index(ring, idle)
  }

  /** schedule(). */
  function Scheduled(s: Sched): Sched
    requires |s.ring| > 0 && (s.zombie.Some? ==> Index(s.ring, s.zombie.value) < |s.ring|)
    requires |Reaped(s).ring| > 0 && Pick(Reaped(s).ring, s.idle) < |Reaped(s).ring|
  {
    var r := Reaped(s);
    var k := Pick(r.ring, r.idle);
    if k == 0 then r else r.(ring := SwitchTo(r.ring, k))
  }

  /** spawn: right behind the running task. */
  function Spawned(s: Sched, t: View): Sched
    requires |s.ring| > 0
  {
    s.(ring := [s.ring[0], t] + s.ring[1..])
  }

  /** The stores of exit_current before its call of schedule(). */
  function Ended(s: Sched): Sched
    requires |s.ring| > 0
  {
    s.(ring := s.ring[0 := s.ring[0].(state := Dead)],
       zombie := if s.ring[0].parent.None? then Some(s.ring[0].id) else s.zombie)
  }

  // ---- what is always true between operations ----

  ghost predicate Distinct(ring: seq<View>) {
    forall i, j {:trigger ring[i], ring[j]} | 0 <= i < j < |ring| :: ring[i].id != ring[j].id
  }

  /** The task at i is where it may be: the first one runs, or is dead on its way out; no other runs. */
  ghost predicate Placed(s: Sched, i: nat, leaving: bool)
    requires i < |s.ring|
  {
    && (i == 0 ==> s.ring[i].state == if leaving then Dead else Running)
    && (i > 0 ==> !s.ring[i].state.Running?)
    && (s.ring[i].id == s.idle ==> !s.ring[i].state.Dead? && s.ring[i].parent.None?)
    && s.ring[i].id !in s.freed
  }

  /** `leaving` is true between the stores of exit_current and its switch. */
  ghost predicate Ordered(s: Sched, leaving: bool) {
    && |s.ring| > 0 && Distinct(s.ring)
    && (forall i: nat {:trigger Placed(s, i, leaving)} | i < |s.ring| :: Placed(s, i, leaving))
    && Index(s.ring, s.idle) < |s.ring|
    && (s.zombie.Some? ==>
          var z := Index(s.ring, s.zombie.value);
          z < |s.ring| && s.ring[z].state.Dead? && s.ring[z].parent.None?)
  }

  lemma IndexIs(ring: seq<View>, id: nat, i: nat)
    requires Distinct(ring) && i < |ring| && ring[i].id == id
    ensures Index(ring, id) == i
  {
  }

  lemma CutIndex(ring: seq<View>, i: nat, id: nat)
    requires Distinct(ring) && i < |ring| && ring[i].id != id
    ensures Distinct(Cut(ring, i))
    ensures var j := Index(ring, id);
      Index(Cut(ring, i), id) == if j <= i then j else j - 1
  {
    var r := Cut(ring, i);
    assert forall k | 0 <= k < |r| :: r[k] == ring[if k < i then k else k + 1];
    var j := Index(ring, id);
    if j < |ring| {
      IndexIs(r, id, if j < i then j else j - 1);
    }
  }

  /** The ring right after start-up. */
  function Booted(bootId: nat, idleId: nat, idleTop: nat): Sched {
    Sched([View(bootId, Running, None, 0, 0, 0, 0), View(idleId, Ready, None, idleTop, 0, 0, 0)], idleId, None, {}, [])
  }

  lemma BootedOrdered(bootId: nat, idleId: nat, idleTop: nat)
    requires bootId != idleId
    ensures Ordered(Booted(bootId, idleId, idleTop), false)
  {
    var s := Booted(bootId, idleId, idleTop);
    IndexIs(s.ring, idleId, 1);
    assert Placed(s, 0, false) && Placed(s, 1, false);
  }

  // ---- each operation keeps it ----

  /** Taking a dead task off the ring. */
  lemma FreedOrdered(s: Sched, i: nat, leaving: bool)
    requires Ordered(s, leaving) && 0 < i < |s.ring| && s.ring[i].state.Dead? && s.zombie != Some(s.ring[i].id)
    ensures Ordered(Freed(s, i), leaving) && Freed(s, i).ring[0] == s.ring[0] && s.ring[i].id !in s.freed
  {
    assert Placed(s, i, leaving);
    var s' := Freed(s, i);
    forall j: nat | j < |s'.ring| ensures Placed(s', j, leaving) {
      assert Placed(s, if j < i then j else j + 1, leaving);
    }
    CutIndex(s.ring, i, s.idle);
    if s.zombie.Some? { CutIndex(s.ring, i, s.zombie.value); }
  }

  /** Reaping frees at most one task, dead, unparented and not the running one. */
  lemma ReapedOrdered(s: Sched, leaving: bool)
    requires Ordered(s, leaving)
    ensures Ordered(Reaped(s), leaving) && Reaped(s).ring[0] == s.ring[0]
    ensures Reaped(s).zombie.Some? ==> Reaped(s).zombie.value == s.ring[0].id
  {
    if s.zombie.Some? && s.zombie.value != s.ring[0].id {
      var z := Index(s.ring, s.zombie.value);
      FreedOrdered(s.(zombie := None), z, leaving) by {
        forall j: nat | j < |s.ring| ensures Placed(s.(zombie := None), j, leaving) { assert Placed(s, j, leaving); }
      }
    }
  }

  /** The idle task is always Ready behind a task that is dead, so the fallback is never needed and
      the ring always turns to a Ready task or stays with the running one. */
  lemma PickIsReady(s: Sched, leaving: bool)
    requires Ordered(s, leaving)
    ensures var k := Pick(s.ring, s.idle);
      k < |s.ring| && (k > 0 ==> s.ring[k].state.Ready? && k == FirstReady(s.ring, 1)) && (leaving ==> k > 0)
  {
    var i := Index(s.ring, s.idle);
    assert Placed(s, 0, leaving) && Placed(s, i, leaving);
  }

  /** Where position i of the ring lands when the ring turns to k. */
  function Turned(i: nat, k: nat, n: nat): nat
    requires i < n && k < n
  {
    if i >= k then i - k else i + n - k
  }

  /** Turning moves every task along; only the two tasks at the switch change, and only in state. */
  lemma SwitchMoves(ring: seq<View>, k: nat)
    requires 0 < k < |ring|
    ensures |SwitchTo(ring, k)| == |ring|
    ensures forall i: nat {:trigger ring[i]} | i < |ring| ::
      SwitchTo(ring, k)[Turned(i, k, |ring|)] ==
        if i == k then ring[k].(state := Running)
        else if i == 0 && ring[0].state.Running? then ring[0].(state := Ready) else ring[i]
  {
  }

  lemma SwitchIndex(ring: seq<View>, k: nat, id: nat)
    requires Distinct(ring) && 0 < k < |ring| && Index(ring, id) < |ring|
    ensures Distinct(SwitchTo(ring, k)) && Index(SwitchTo(ring, k), id) == Turned(Index(ring, id), k, |ring|)
  {
    SwitchMoves(ring, k);
    var r, n := SwitchTo(ring, k), |ring|;
    forall i: nat, j: nat | i < j < n ensures r[i].id != r[j].id {
      var i0, j0 := if i < n - k then i + k else i + k - n, if j < n - k then j + k else j + k - n;
      assert r[Turned(i0, k, n)].id == ring[i0].id && r[Turned(j0, k, n)].id == ring[j0].id;
      assert i0 < j0 || j0 < i0;
    }
    var i := Index(ring, id);
    assert r[Turned(i, k, n)].id == ring[i].id;
    IndexIs(r, id, Turned(i, k, n));
  }

  lemma SwitchOrdered(s: Sched, k: nat, leaving: bool)
    requires Ordered(s, leaving) && 0 < k < |s.ring| && s.ring[k].state.Ready?
    ensures Ordered(s.(ring := SwitchTo(s.ring, k)), false)
  {
    var s', n := s.(ring := SwitchTo(s.ring, k)), |s.ring|;
    SwitchMoves(s.ring, k);
    SwitchIndex(s.ring, k, s.idle);
    forall j: nat | j < n ensures Placed(s', j, false) {
      var j0 := if j < n - k then j + k else j + k - n;
      assert Placed(s, j0, leaving);
      assert s'.ring[Turned(j0, k, n)].id == s.ring[j0].id;
    }
    if s.zombie.Some? {
      var z := Index(s.ring, s.zombie.value);
      SwitchIndex(s.ring, k, s.zombie.value);
      assert s'.ring[Turned(z, k, n)].id == s.ring[z].id;
    }
  }

  /** schedule() keeps the order, whoever calls it, and leaves exactly one task running: the one at
      the front. */
  lemma ScheduledOrdered(s: Sched, leaving: bool)
    requires Ordered(s, leaving)
    ensures Pick(Reaped(s).ring, s.idle) < |Reaped(s).ring| && Ordered(Scheduled(s), false)
  {
    ReapedOrdered(s, leaving);
    var r := Reaped(s);
    PickIsReady(r, leaving);
    var k := Pick(r.ring, r.idle);
    if k > 0 { SwitchOrdered(r, k, leaving); }
  }

  /** schedule() case by case. */
  lemma ScheduledIs(s: Sched, leaving: bool)
    requires Ordered(s, leaving)
    ensures Pick(Reaped(s).ring, s.idle) < |Reaped(s).ring| && Ordered(Scheduled(s), false)
    ensures var r := Reaped(s);
      var k := FirstReady(r.ring, 1);
      && |r.ring| > 0 && r.ring[0] == s.ring[0]
      && (k == |r.ring| ==> !leaving && r.ring[0].state.Running? && Scheduled(s) == r)
      && (k < |r.ring| ==> Scheduled(s) == r.(ring := SwitchTo(r.ring, k)))
  {
    ScheduledOrdered(s, leaving);
    ReapedOrdered(s, leaving);
    PickIsReady(Reaped(s), leaving);
    assert Placed(Reaped(s), 0, leaving);
  }

  /** A new Ready task with a new number. */
  lemma SpawnedOrdered(s: Sched, t: View)
    requires Ordered(s, false) && t.state.Ready? && t.id !in s.freed && Index(s.ring, t.id) == |s.ring|
    ensures Ordered(Spawned(s, t), false)
  {
    var s' := Spawned(s, t);
    forall j: nat | j < |s'.ring| ensures Placed(s', j, false) {
      if j != 1 { assert Placed(s, if j == 0 then 0 else j - 1, false); }
    }
    SpawnedIndex(s, t, s.idle);
    if s.zombie.Some? { SpawnedIndex(s, t, s.zombie.value); }
    assert t.id != s.idle;
  }

  lemma SpawnedIndex(s: Sched, t: View, id: nat)
    requires Distinct(s.ring) && |s.ring| > 0 && Index(s.ring, t.id) == |s.ring| && Index(s.ring, id) < |s.ring|
    ensures Distinct(Spawned(s, t).ring)
    ensures var i := Index(s.ring, id);
      Index(Spawned(s, t).ring, id) == if i == 0 then 0 else i + 1
  {
    var r, i := Spawned(s, t).ring, Index(s.ring, id);
    assert forall j | 0 <= j < |r| :: r[j] == if j == 0 then s.ring[0] else if j == 1 then t else s.ring[j - 1];
    IndexIs(r, id, if i == 0 then 0 else i + 1);
  }

  /** exit_current, up to its switch. The idle task never ends. */
  lemma EndedOrdered(s: Sched)
    requires Ordered(s, false) && s.ring[0].id != s.idle
    ensures Ordered(Ended(s), true)
  {
    var s' := Ended(s);
    forall j: nat | j < |s'.ring| ensures Placed(s', j, true) { assert Placed(s, j, false); }
    assert Distinct(s'.ring);
    IndexIs(s'.ring, s.idle, Index(s.ring, s.idle));
    IndexIs(s'.ring, s.ring[0].id, 0);
    if s.zombie.Some? { IndexIs(s'.ring, s.zombie.value, Index(s.ring, s.zombie.value)); }
  }

  lemma FieldIndex(ring: seq<View>, t: View, id: nat)
    requires Distinct(ring) && |ring| > 0 && t.id == ring[0].id
    ensures Distinct(ring[0 := t]) && Index(ring[0 := t], id) == Index(ring, id)
  {
    var i := Index(ring, id);
    if i < |ring| { IndexIs(ring[0 := t], id, i); }
    if Index(ring[0 := t], id) < |ring| { assert ring[0 := t][Index(ring[0 := t], id)].id == id; }
  }

  /** Stores into fields of the running task that the order does not look at. */
  lemma FrontOrdered(s: Sched, t: View)
    requires Ordered(s, false) && t == s.ring[0].(fsBase := t.fsBase, cr3 := t.cr3, exitCode := t.exitCode)
    ensures Ordered(s.(ring := s.ring[0 := t]), false)
  {
    var s' := s.(ring := s.ring[0 := t]);
    forall i: nat | i < |s'.ring| ensures Placed(s', i, false) { assert Placed(s, i, false); }
    FieldIndex(s.ring, t, s.idle);
    if s.zombie.Some? { FieldIndex(s.ring, t, s.zombie.value); }
  }

  // ---- waiting for a turn ----

  /** Every call of schedule() brings a Ready task at least one place nearer, and at distance one or
      less runs it. */
  lemma ScheduledNearer(s: Sched, leaving: bool, id: nat)
    requires Ordered(s, leaving) && 0 < Index(s.ring, id) < |s.ring| && s.ring[Index(s.ring, id)].state.Ready?
    ensures Pick(Reaped(s).ring, s.idle) < |Reaped(s).ring|
    ensures var r := Scheduled(s).ring;
      && Index(r, id) < Index(s.ring, id) && Index(r, id) < |r|
      && r[Index(r, id)].state == if Index(r, id) == 0 then Running else Ready
  {
    ReapedOrdered(s, leaving);
    ReapedIndex(s, leaving, id);
    var r := Reaped(s);
    PickIsReady(r, leaving);
    var k := Pick(r.ring, r.idle);
    SwitchIndex(r.ring, k, id);
    SwitchMoves(r.ring, k);
    var i := Index(r.ring, id);
    assert r.ring[i].id == id;
  }

  lemma ReapedIndex(s: Sched, leaving: bool, id: nat)
    requires Ordered(s, leaving) && 0 < Index(s.ring, id) < |s.ring| && !s.ring[Index(s.ring, id)].state.Dead?
    ensures var r := Reaped(s).ring;
      0 < Index(r, id) <= Index(s.ring, id) && Index(r, id) < |r| && r[Index(r, id)] == s.ring[Index(s.ring, id)]
  {
    if s.zombie.Some? && s.zombie.value != s.ring[0].id {
      CutIndex(s.ring, Index(s.ring, s.zombie.value), id);
    }
  }
}
