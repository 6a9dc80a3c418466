/** The cooperative scheduler of kernel/core/scheduler.c as a transition system on values; `T` is the identity of a
    task. */
module SchedulerSpec {
  import opened MachineInts
  import opened Lists

  datatype State = Ready | Running | Blocked | Dead

  /** The task list in order, each task's state, the current task and the idle task. */
  datatype Sched<T> = Sched(ids: seq<T>, states: seq<State>, current: Option<T>, idle: Option<T>)

  /** The current task is on the list, and no other task is marked running. */
  predicate Inv<T(==)>(s: Sched<T>) {
    && |s.ids| == |s.states| && Distinct(s.ids)
    && (s.current.Some? ==> s.current.value in s.ids)
    && (forall i | 0 <= i < |s.ids| :: s.states[i] == Running ==> s.current == Some(s.ids[i]))
  }

  /** A task other than the idle one that could run now. */
  predicate Runnable<T(==)>(s: Sched<T>, i: nat)
    requires i < |s.ids| == |s.states|
  {
    s.states[i] == Ready && s.idle != Some(s.ids[i])
  }

  /** The distance from the current task at `c` to the first runnable task at distance `d` or more; 0 when there is
      none. */
  function FirstFrom<T(==)>(s: Sched<T>, c: nat, d: nat): (r: nat)
    requires |s.ids| == |s.states| && c < |s.ids| && 1 <= d <= |s.ids|
    ensures r != 0 ==> d <= r < |s.ids| && Runnable(s, Pos(c, r, |s.ids|))
    ensures forall e | d <= e < (if r == 0 then |s.ids| else r) :: !Runnable(s, Pos(c, e, |s.ids|))
    decreases |s.ids| - d
  {
    if d == |s.ids| then 0
    else if Runnable(s, Pos(c, d, |s.ids|)) then d
    else FirstFrom(s, c, d + 1)
  }

  /** The idle task can stand in: it is ready, on the list, and not current. */
  predicate IdleReady<T(==)>(s: Sched<T>)
    requires Inv(s)
  {
    s.idle.Some? && s.idle != s.current && s.idle.value in s.ids && s.states[IndexOf(s.ids, s.idle.value)] == Ready
  }

  /** The index scheduler_yield switches to: the next runnable task in cyclic order, else the idle task. */
  function Next<T(==)>(s: Sched<T>): (r: Option<nat>)
    requires Inv(s) && s.current.Some?
    ensures r.Some? ==> r.value < |s.ids| && s.states[r.value] == Ready && s.ids[r.value] != s.current.value
  {
    var c := IndexOf(s.ids, s.current.value);
    var d := FirstFrom(s, c, 1);
    if d != 0 then Some(Pos(c, d, |s.ids|))
    else if IdleReady(s) then Some(IndexOf(s.ids, s.idle.value))
    else None
  }

  /** Place `i` holds the idle task and it is ready. */
  predicate IdleAt<T(==)>(s: Sched<T>, i: nat)
    requires i < |s.ids| == |s.states|
  {
    s.idle == Some(s.ids[i]) && s.states[i] == Ready
  }

  /** The idle task is met ready on the way from `c` before distance `d`. */
  predicate IdleMet<T(==)>(s: Sched<T>, c: nat, d: nat)
    requires |s.ids| == |s.states| && c < |s.ids| && 1 <= d <= |s.ids|
  {
    d > 1 && (IdleAt(s, Pos(c, d - 1, |s.ids|)) || IdleMet(s, c, d - 1))
  }

  lemma {:induction false} MetAt<T>(s: Sched<T>, c: nat, d: nat, e: nat)
    requires |s.ids| == |s.states| && c < |s.ids| && 1 <= e < d <= |s.ids| && IdleAt(s, Pos(c, e, |s.ids|))
    ensures IdleMet(s, c, d)
  {
    if e < d - 1 {
      MetAt(s, c, d - 1, e);
    }
  }

  lemma {:induction false} MetWhere<T>(s: Sched<T>, c: nat, d: nat) returns (e: nat)
    requires |s.ids| == |s.states| && c < |s.ids| && 1 <= d <= |s.ids| && IdleMet(s, c, d)
    ensures 1 <= e < d && IdleAt(s, Pos(c, e, |s.ids|))
  {
    if IdleAt(s, Pos(c, d - 1, |s.ids|)) {
      e := d - 1;
    } else {
      e := MetWhere(s, c, d - 1);
    }
  }

  /** Going all the way round meets the idle task exactly when it can stand in. */
  lemma IdleMetIff<T>(s: Sched<T>, c: nat)
    requires Inv(s) && c < |s.ids| && s.current == Some(s.ids[c])
    ensures IdleMet(s, c, |s.ids|) <==> IdleReady(s)
  {
    var n := |s.ids|;
    if IdleReady(s) {
      MetAt(s, c, n, Dist(c, IndexOf(s.ids, s.idle.value), n));
    }
    if IdleMet(s, c, n) {
      var e := MetWhere(s, c, n);
      IndexUnique(s.ids, Pos(c, e, n));
    }
  }

  function SwitchTo<T(==)>(s: Sched<T>, i: nat): Sched<T>
    requires Inv(s) && s.current.Some? && i < |s.ids|
  {
    var c := IndexOf(s.ids, s.current.value);
    var states := if s.states[c] == Running then s.states[c := Ready] else s.states;
    s.(states := states[i := Running], current := Some(s.ids[i]))
  }

  /** scheduler_yield; None is the panic of a dead task with no successor. */
  function Yield<T(==)>(s: Sched<T>): (r: Option<Sched<T>>)
    requires Inv(s)
    ensures r.Some? ==> Inv(r.value)
  {
    if s.current.None? then Some(s)
    else
      var next := Next(s);
      if next.Some? then Some(SwitchTo(s, next.value))
      else if s.states[IndexOf(s.ids, s.current.value)] == Dead then None
      else Some(s)
  }

  /** task_destroy: the current task is only marked; any other is taken off the list. */
  function Destroy<T(==)>(s: Sched<T>, t: T): (r: Sched<T>)
    requires Inv(s)
    ensures Inv(r)
  {
    if s.current == Some(t) then s.(states := s.states[IndexOf(s.ids, t) := Dead])
    else if t !in s.ids then s
    else
      var k := IndexOf(s.ids, t);
      assert s.current.Some? ==> s.current.value in Without(s.ids, k) by {
        if s.current.Some? { WithoutKeeps(s.ids, k, IndexOf(s.ids, s.current.value)); }
      }
      s.(ids := Without(s.ids, k), states := Without(s.states, k))
  }

  /** task_create: a new ready task goes to the end. */
  function Create<T(==)>(s: Sched<T>, t: T): (r: Sched<T>)
    requires Inv(s) && t !in s.ids
    ensures Inv(r)
  {
    s.(ids := s.ids + [t], states := s.states + [Ready])
  }

  /** scheduler_run: the first task starts. */
  function Start<T(==)>(s: Sched<T>, t: T): (r: Sched<T>)
    requires Inv(s) && s.current.None? && t in s.ids
    ensures Inv(r)
  {
    s.(states := s.states[IndexOf(s.ids, t) := Running], current := Some(t))
  }

  // Whole runs

  datatype Event<T> = Created(t: T) | Destroyed(t: T) | SetIdle(task: Option<T>) | Yielded

  /** One call; a creation of a task that is already listed does not happen. */
  function Step<T(==)>(s: Sched<T>, e: Event<T>): (r: Option<Sched<T>>)
    requires Inv(s)
    ensures r.Some? ==> Inv(r.value) && (s.current.Some? ==> r.value.current.Some?)
  {
    match e
    case Created(t) => if t in s.ids then Some(s) else Some(Create(s, t))
    case Destroyed(t) => Some(Destroy(s, t))
    case SetIdle(task) => Some(s.(idle := task))
    case Yielded => Yield(s)
  }

  /** The state after the first `k` calls of a run; None when it panicked.  Every run keeps the invariant, and once
      started the scheduler always has a current task, which by the invariant is on the list. */
  function Run<T(==)>(s: Sched<T>, es: seq<Event<T>>, k: nat): (r: Option<Sched<T>>)
    requires Inv(s) && k <= |es|
    ensures r.Some? ==> Inv(r.value) && (s.current.Some? ==> r.value.current.Some?)
  {
    if k == 0 then Some(s)
    else
      var before := Run(s, es, k - 1);
      if before.None? then None else Step(before.value, es[k - 1])
  }

  /** The idle task is switched to only when no other task but the current one is ready. */
  lemma IdleOnlyAlone<T>(s: Sched<T>, i: nat)
    requires Inv(s) && s.current.Some? && Yield(s).Some?
    requires Yield(s).value.current == s.idle && s.idle != s.current
    requires i < |s.ids| && s.ids[i] != s.current.value && s.idle != Some(s.ids[i])
    ensures s.states[i] != Ready
  {
    var c := IndexOf(s.ids, s.current.value);
    assert Pos(c, Dist(c, i, |s.ids|), |s.ids|) == i;
  }

  // Bounded waiting

  /** `t` waits to run: ready, not the idle task, not current. */
  predicate Waiting<T(==)>(s: Sched<T>, t: T) {
    && Inv(s) && s.current.Some? && t in s.ids && s.current != Some(t)
    && s.idle != Some(t) && s.states[IndexOf(s.ids, t)] == Ready
  }

  /** How far `t` is behind the current task on the cyclic list. */
  function Behind<T(==)>(s: Sched<T>, t: T): (d: nat)
    requires Waiting(s, t)
    ensures 1 <= d < |s.ids|
  {
    Dist(IndexOf(s.ids, s.current.value), IndexOf(s.ids, t), |s.ids|)
  }

  /** A yield runs `t` or brings it closer. */
  lemma YieldCloser<T>(s: Sched<T>, t: T)
    requires Waiting(s, t)
    ensures Yield(s).Some?
    ensures var r := Yield(s).value; r.current == Some(t) || (Waiting(r, t) && Behind(r, t) < Behind(s, t))
  {
    var c, p, n := IndexOf(s.ids, s.current.value), IndexOf(s.ids, t), |s.ids|;
    var d := FirstFrom(s, c, 1);
    assert Runnable(s, p) && Pos(c, Behind(s, t), n) == p;
    assert 1 <= d <= Behind(s, t);
    IndexUnique(s.ids, Pos(c, d, n));
  }

  /** Taking out place `k` of `n` brings `p` no further behind `c`. */
  lemma DistWithout(c: nat, p: nat, k: nat, n: nat)
    requires c < n && p < n && k < n && k != c && k != p
    ensures Dist(if c < k then c else c - 1, if p < k then p else p - 1, n - 1) <= Dist(c, p, n)
  {
  }

  /** Destroying another task never moves `t` further away. */
  lemma DestroyNotFarther<T>(s: Sched<T>, t: T, x: T)
    requires Waiting(s, t) && x != t
    ensures Waiting(Destroy(s, x), t) && Behind(Destroy(s, x), t) <= Behind(s, t)
  {
    if s.current != Some(x) && x in s.ids {
      RemoveNotFarther(s, t, IndexOf(s.ids, x));
    }
  }

  /** The same for the place that is taken out. */
  lemma RemoveNotFarther<T>(s: Sched<T>, t: T, k: nat)
    requires Waiting(s, t) && k < |s.ids| && s.ids[k] != t && s.current != Some(s.ids[k])
    ensures var r := s.(ids := Without(s.ids, k), states := Without(s.states, k));
      Inv(r) ==> Waiting(r, t) && Behind(r, t) <= Behind(s, t)
  {
    WithoutIndex(s.ids, k, t);
    WithoutIndex(s.ids, k, s.current.value);
    DistWithout(IndexOf(s.ids, s.current.value), IndexOf(s.ids, t), k, |s.ids|);
  }

  /** Events that neither add tasks nor touch `t`. */
  predicate Harmless<T(==)>(e: Event<T>, t: T) {
    match e
    case Created(_) => false
    case Destroyed(x) => x != t
    case SetIdle(task) => task != Some(t)
    case Yielded => true
  }

  /** Yields among the events from `i` on. */
  function Yields<T>(es: seq<Event<T>>, i: nat): nat
    requires i <= |es|
    decreases |es| - i
  {
    if i == |es| then 0 else (if es[i].Yielded? then 1 else 0) + Yields(es, i + 1)
  }

  /** After `a`, `t` runs or has come closer, by one if a yield lies between. */
  predicate Closer<T(==)>(a: Sched<T>, b: Option<Sched<T>>, t: T, yielded: bool)
    requires Waiting(a, t)
  {
    && b.Some?
    && (b.value.current == Some(t)
      || (Waiting(b.value, t) && Behind(b.value, t) + (if yielded then 1 else 0) <= Behind(a, t)))
  }

  lemma StepCloser<T>(s: Sched<T>, t: T, e: Event<T>)
    requires Waiting(s, t) && Harmless(e, t)
    ensures Closer(s, Step(s, e), t, e.Yielded?)
  {
    match e
    case Destroyed(x) => DestroyNotFarther(s, t, x);
    case SetIdle(task) =>
    case Yielded => YieldCloser(s, t);
  }

  /** From `s`, after some of the events from `i` on, `t` is the current task. */
  predicate Runs<T(==)>(s: Sched<T>, es: seq<Event<T>>, i: nat, t: T)
    requires Inv(s) && i <= |es|
    decreases |es| - i
  {
    || s.current == Some(t)
    || (i < |es| && var r := Step(s, es[i]); r.Some? && Runs(r.value, es, i + 1, t))
  }

  /** Bounded waiting: in every run that adds no task and leaves `t` alone, `t` runs within as many yields as its
      distance from the current task. */
  lemma {:induction false} BoundedWaiting<T>(s: Sched<T>, es: seq<Event<T>>, i: nat, t: T)
    requires i <= |es| && Waiting(s, t) && forall j | 0 <= j < |es| :: Harmless(es[j], t)
    requires Yields(es, i) >= Behind(s, t)
    ensures Runs(s, es, i, t)
    decreases |es| - i
  {
    StepCloser(s, t, es[i]);
    var r := Step(s, es[i]).value;
    if r.current != Some(t) {
      BoundedWaiting(r, es, i + 1, t);
    }
  }
}
