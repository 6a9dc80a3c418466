/** kernel/core/scheduler.c on its linked list of tasks.  Stacks, register contexts and the context switch itself are
    left out; the two allocations of task_create are parameters. */
module Scheduler {
  import opened MachineInts
  import opened Lists
  import opened SchedulerSpec

  class Task {
    var state: State
    var next: Task?
    const priority: nat
    const tid: u32

    constructor (tid: u32, priority: nat)
      ensures state == Ready && next == null && this.priority == priority && this.tid == tid
    {
      state, next := Ready, null;
      this.priority, this.tid := priority, tid;
    }
  }

  function AsOption(t: Task?): Option<Task> {
    if t == null then None else Some(t)
  }

  ghost function States(l: seq<Task>): (r: seq<State>)
    reads l`state
    ensures |r| == |l| && forall i | 0 <= i < |l| :: r[i] == l[i].state
  {
    StatesTo(l, |l|)
  }

  ghost function StatesTo(l: seq<Task>, k: nat): (r: seq<State>)
    requires k <= |l|
    reads l`state
    ensures |r| == k && forall i | 0 <= i < k :: r[i] == l[i].state
  {
    if k == 0 then [] else StatesTo(l, k - 1) + [l[k - 1].state]
  }

  /** The task at `i` points to the one after it; the last points to nothing. */
  ghost predicate Follows(l: seq<Task>, i: nat)
    reads l`next
  {
    i < |l| && l[i].next == if i + 1 < |l| then l[i + 1] else null
  }

  class RoundRobin {
    var head: Task?
    var current: Task?
    var idle: Task?
    var nextTid: u32
    ghost var list: seq<Task>

    /** `head` and the `next` pointers thread exactly `list`. */
    ghost predicate Linked()
      reads this`head, this`list, list`next
    {
      && head == (if list == [] then null else list[0])
      && forall i: nat | i < |list| :: Follows(list, i)
    }

    ghost function View(): Sched<Task>
      reads this, list`state
    {
      Sched(list, States(list), AsOption(current), AsOption(idle))
    }

    ghost predicate Valid()
      reads this, list
    {
      Linked() && Inv(View())
    }

    /** scheduler_init. */
    constructor ()
      ensures Valid() && View() == Sched([], [], None, None)
    {
      head, current, idle, nextTid, list := null, null, null, 1, [];
    }

    /** task_append and the rest of task_create; `taskMemory` and `stackMemory` say whether kmalloc succeeds. */
    method Create(priority: nat, entry: bool, taskMemory: bool, stackMemory: bool) returns (t: Task?)
      requires Valid()
      modifies this, list
      ensures Valid()
      ensures t == null <==> !(entry && taskMemory && stackMemory)
      ensures t == null ==> View() == old(View())
      ensures nextTid == if entry && taskMemory then (old(nextTid) + 1) % TWO_32 else old(nextTid)
      ensures t != null ==>
        fresh(t) && t.priority == priority && t.tid == old(nextTid) && View() == SchedulerSpec.Create(old(View()), t)
    {
      if !entry || !taskMemory {
        return null;
      }
      var n := new Task(nextTid, priority);
      nextTid := (nextTid + 1) % TWO_32;
      if !stackMemory {
        return null;
      }
      Append(n);
      t := n;
    }

    /** task_append. */
    method Append(t: Task)
      requires Valid() && t !in list && t.next == null && t.state == Ready
      modifies this`head, this`list, list`next
      ensures Valid() && t.next == null && View() == SchedulerSpec.Create(old(View()), t)
    {
      if head == null {
        head := t;
      } else {
        var p: Task := head;
        ghost var i := 0;
        while p.next != null
          invariant i < |list| && p == list[i]
          decreases |list| - i
        {
          assert Follows(list, i);
          p := p.next;
          i := i + 1;
        }
        assert Follows(list, i);
        p.next := t;
      }
      ghost var was := list;
      list := list + [t];
      forall i: nat | i < |list|
        ensures Follows(list, i)
      {
        assert i < |was| ==> old(Follows(was, i));
      }
      assert States(list) == old(States(list)) + [Ready];
    }

    /** scheduler_pick_first_ready: the first of the ready tasks with the highest priority. */
    method PickFirstReady() returns (best: Task?)
      requires Valid()
      ensures best == null ==> forall i | 0 <= i < |list| :: list[i].state != Ready
      ensures best != null ==>
        && best in list && best.state == Ready
        && forall i | 0 <= i < |list| && list[i].state == Ready ::
             list[i].priority < best.priority || (list[i].priority == best.priority && IndexOf(list, best) <= i)
    {
      best := null;
      ghost var b := 0;
      var p := head;
      ghost var i := 0;
      while p != null
        invariant i <= |list| && p == (if i < |list| then list[i] else null)
        invariant best == null ==> forall j | 0 <= j < i :: list[j].state != Ready
        invariant best != null ==>
          && b < i && best == list[b] && best.state == Ready
          && forall j | 0 <= j < i && list[j].state == Ready ::
               list[j].priority < best.priority || (list[j].priority == best.priority && b <= j)
        decreases |list| - i
      {
        if p.state == Ready {
          if best == null || p.priority > best.priority {
            best, b := p, i;
          }
        }
        assert Follows(list, i);
        p := p.next;
        i := i + 1;
      }
      if best != null {
        IndexUnique(list, b);
      }
    }

    /** scheduler_run up to the first context switch; false is the panic when no task is ready. */
    method Start() returns (ok: bool)
      requires Valid() && current == null
      modifies this`current, list`state
      ensures Valid() && list == old(list) && idle == old(idle)
      ensures ok <==> exists i | 0 <= i < |list| :: old(list[i].state) == Ready
      ensures ok ==> current != null && current in list && View() == SchedulerSpec.Start(old(View()), current)
      ensures !ok ==> View() == old(View())
    {
      var first := PickFirstReady();
      if first == null {
        return false;
      }
      current := first;
      first.state := Running;
      assert States(list) == old(States(list))[IndexOf(list, first) := Running];
      ok := true;
    }

    /** scheduler_set_idle_task. */
    method SetIdle(task: Task?)
      requires Valid()
      modifies this`idle
      ensures Valid() && View() == old(View()).(idle := AsOption(task))
    {
      idle := task;
    }

    /** task_destroy. */
    method Destroy(task: Task?)
      requires Valid()
      modifies this`head, this`list, list, task
      ensures Valid()
      ensures View() == if task == null then old(View()) else SchedulerSpec.Destroy(old(View()), task)
    {
      if task == null {
        return;
      }
      if current == task {
        MarkDead();
        return;
      }
      Unlink(task);
    }

    /** The current task only loses its state. */
    method MarkDead()
      requires Valid() && current != null
      modifies list`state
      ensures Valid() && View() == SchedulerSpec.Destroy(old(View()), current)
    {
      current.state := Dead;
      assert States(list) == old(States(list))[IndexOf(list, current) := Dead];
    }

    /** Any other task leaves the list. */
    method Unlink(task: Task)
      requires Valid() && current != task
      modifies this`head, this`list, list`next, task`state
      ensures Valid() && View() == SchedulerSpec.Destroy(old(View()), task)
    {
      var prev: Task? := null;
      var p := head;
      ghost var i := 0;
      while p != null && p != task
        invariant i <= |list| && p == (if i < |list| then list[i] else null)
        invariant prev == (if i == 0 then null else list[i - 1])
        invariant forall j | 0 <= j < i :: list[j] != task
        decreases |list| - i
      {
        prev := p;
        assert Follows(list, i);
        p := p.next;
        i := i + 1;
      }
      if p == null {
        return;
      }
      IndexUnique(list, i);
      RemoveAt(prev, p, i);
    }

    /** The pointers of task_destroy pass over the task at `i`. */
    method Bypass(prev: Task?, p: Task, ghost i: nat)
      requires Linked() && Distinct(list) && i < |list| && p == list[i] && prev == if i == 0 then null else list[i - 1]
      modifies this`head, this`list, list`next
      ensures Linked() && list == Without(old(list), i)
    {
      assert Follows(list, i);
      if prev != null {
        prev.next := p.next;
      } else {
        head := p.next;
      }
      ghost var was := list;
      list := Without(list, i);
      forall j: nat | j < |list|
        ensures Follows(list, j)
      {
        assert old(Follows(was, if j < i then j else j + 1));
      }
    }

    method RemoveAt(prev: Task?, p: Task, ghost i: nat)
      requires Valid() && i < |list| && p == list[i] && current != p && IndexOf(list, p) == i
      requires prev == if i == 0 then null else list[i - 1]
      modifies this`head, this`list, list`next, p`state
      ensures Valid() && View() == SchedulerSpec.Destroy(old(View()), p)
    {
      Bypass(prev, p, i);
      assert States(list) == Without(old(States(list)), i);
      p.state := Dead;
      assert View() == SchedulerSpec.Destroy(old(View()), p);
    }

    /** The next task in cyclic order. */
    function Advance(cursor: Task): (r: Task?)
      reads this, cursor
    {
      if cursor.next != null then cursor.next else head
    }

    lemma AdvanceIs(c: nat, d: nat)
      requires Linked() && c < |list| && d < |list|
      ensures Advance(list[Pos(c, d, |list|)]) == list[if d + 1 == |list| then c else Pos(c, d + 1, |list|)]
    {
      assert Follows(list, Pos(c, d, |list|));
    }

    /** The search of scheduler_yield: it ends because the current task is on the list.  `d` is where it stopped. */
    method Search() returns (next: Task?, fallback: Task?, ghost d: nat)
      requires Linked() && Distinct(list) && current != null && current in list
      ensures var s, n, c := View(), |list|, IndexOf(list, current);
        && FirstFrom(s, c, 1) == d
        && (d != 0 ==> next == list[Pos(c, d, n)])
        && (d == 0 ==> next == null && fallback == if IdleMet(s, c, n) then idle else null)
    {
      ghost var s, n, c := View(), |list|, IndexOf(list, current);
      AdvanceIs(c, 0);
      var cursor := Advance(current);
      next, fallback, d := null, null, 1;
      while cursor != current
        invariant 1 <= d <= n && cursor == list[if d == n then c else Pos(c, d, n)]
        invariant FirstFrom(s, c, 1) == FirstFrom(s, c, d)
        invariant fallback == if IdleMet(s, c, d) then idle else null
        decreases n - d
      {
        if cursor.state == Ready {
          if cursor == idle {
            fallback := cursor;
          } else {
            next := cursor;
            return;
          }
        }
        AdvanceIs(c, d);
        cursor := Advance(cursor);
        d := d + 1;
      }
      d := 0;
    }

    method FindNext() returns (next: Task?)
      requires Valid() && current != null
      ensures next == null <==> Next(View()).None?
      ensures next != null ==> next == list[Next(View()).value]
    {
      ghost var c := IndexOf(list, current);
      var found, fallback, d := Search();
      next := found;
      if next == null {
        IdleMetIff(View(), c);
        next := fallback;
      }
    }

    /** The state changes of a switch from the current task to the one at `i`. */
    method SwitchTo(next: Task, ghost i: nat)
      requires Valid() && current != null && i < |list| && next == list[i] && next != current
      requires Inv(SchedulerSpec.SwitchTo(View(), i))
      modifies this`current, list`state
      ensures Valid() && View() == SchedulerSpec.SwitchTo(old(View()), i)
    {
      ghost var c, was := IndexOf(list, current), States(list);
      if current.state == Running {
        current.state := Ready;
      }
      next.state := Running;
      current := next;
      assert States(list) == (if was[c] == Running then was[c := Ready] else was)[i := Running];
    }

    /** scheduler_yield; false is the panic of a dead task with no ready successor. */
    method Yield() returns (ok: bool)
      requires Valid()
      modifies this`current, list`state
      ensures ok <==> SchedulerSpec.Yield(old(View())).Some?
      ensures ok ==> Valid() && View() == SchedulerSpec.Yield(old(View())).value
    {
      if current == null || head == null {
        return true;
      }
      var next := FindNext();
      if next == null {
        return current.state != Dead;
      }
      SwitchTo(next, Next(View()).value);
      ok := true;
    }
  }
}
