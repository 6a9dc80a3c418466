/** The operations of kernel/core/service_supervisor.c on the service table and its counters. */
module Supervisor {
  import opened MachineInts
  import opened Arith
  import opened SupervisorSpec

  const NO_SERVICE: Service := Service("", 0, Stopped, false, FULL_BUDGET, 0, 0, false)

  class ServiceSupervisor {
    const table: array<Service>
    var count: nat
    var running: nat
    var faulted: nat
    var shutdown: bool

    ghost predicate Shape()
      reads this
    {
      table.Length == MAX_SERVICES && count <= MAX_SERVICES
    }

    ghost function View(): Sup
      reads this, table
      requires Shape()
    {
      Sup(table[..count], running, faulted, shutdown)
    }

    /** The counters agree with the table. */
    ghost predicate Valid()
      reads this, table
    {
      Shape() && CountsOk(View())
    }

    /** Where the service of that name stands. */
    ghost function Place(name: Name): (r: Option<nat>)
      reads this, table
      requires Shape()
      ensures r.Some? ==> r.value < count
    {
      Find(table[..count], name, 0)
    }

    /** Every service but that of the name is as it was. */
    twostate predicate OthersKept(name: Name)
      reads this, table
      requires old(Shape()) && Shape()
    {
      old(count) <= count && forall j | 0 <= j < old(count) && old(Place(name)) != Some(j) :: table[j] == old(table[j])
    }

    /** service_supervisor_init. */
    constructor ()
      ensures Valid() && fresh(table) && View() == Initial().sup
    {
      table := new Service[MAX_SERVICES](_ => NO_SERVICE);
      count, running, faulted, shutdown := 0, 0, 0, false;
    }

    /** service_supervisor_find_mut. */
    method FindIndex(name: Name) returns (r: Option<nat>)
      requires Shape()
      ensures r == Place(name)
    {
      for i := 0 to count
        invariant Find(table[..count], name, 0) == Find(table[..count], name, i)
      {
        if table[i].name == name {
          return Some(i);
        }
      }
      r := None;
    }

    /** service_supervisor_native_register_starting. */
    method RegisterStarting(name: Name, pid: nat, restartOnFault: bool) returns (st: Status)
      requires Valid()
      modifies this, table
      ensures Valid() && OthersKept(name)
        && View() == Register(old(View()), name, pid, restartOnFault).GetOr(old(View()))
      ensures st == EInval <==> name == "" || pid == 0
      ensures st == ENoMem <==> name != "" && pid != 0 && old(Place(name)).None? && old(count) == MAX_SERVICES
      ensures st in {Ok, EInval, ENoMem} && (st != Ok ==> View() == old(View()))
      ensures st == Ok ==> running == old(running) - (if old(IsRunning(name)) then 1 else 0)
      ensures st == Ok && |name| < NAME_MAX ==>
        Place(name) == Some(old(Place(name)).GetOr(old(count))) && table[Place(name).value].pid == pid
        && table[Place(name).value].state in {Starting, Restarting}
    {
      if name == "" || pid == 0 {
        return EInval;
      }
      var found := FindIndex(name);
      if found.Some? {
        RegisterAgain(name, pid, restartOnFault, found.value);
      } else {
        if count >= MAX_SERVICES {
          return ENoMem;
        }
        RegisterNew(name, pid, restartOnFault);
      }
      st := Ok;
    }

    method RegisterAgain(name: Name, pid: nat, restartOnFault: bool, k: nat)
      requires Valid() && name != "" && pid != 0 && Place(name) == Some(k)
      modifies this`running, this`faulted, table
      ensures Valid() && OthersKept(name) && Some(View()) == Register(old(View()), name, pid, restartOnFault)
      ensures running == old(running) - (if old(IsRunning(name)) then 1 else 0)
      ensures Place(name) == Some(k) && table[k].pid == pid && table[k].state in {Starting, Restarting}
    {
      ghost var was := View();
      CountAtLeast(was.services, k, |was.services|);
      var restarting := table[k].state == Faulted || table[k].state == Stopped;
      if table[k].state == Running && running != 0 {
        running := running - 1;
      }
      if table[k].state == Faulted && faulted != 0 {
        faulted := faulted - 1;
      }
      table[k] := table[k].(pid := pid, state := if restarting then Restarting else Starting,
        restartOnFault := restartOnFault);
      assert table[..count] == was.services[k := table[k]];
      SameFind(was.services, k, table[k], name, 0);
      RegisterCounts(was, name, pid, restartOnFault);
    }

    method RegisterNew(name: Name, pid: nat, restartOnFault: bool)
      requires Valid() && name != "" && pid != 0 && Place(name).None? && count < MAX_SERVICES
      modifies this`count, table
      ensures Valid() && OthersKept(name) && Some(View()) == Register(old(View()), name, pid, restartOnFault)
      ensures |name| < NAME_MAX ==>
        Place(name) == Some(old(count)) && table[old(count)].pid == pid && table[old(count)].state == Starting
    {
      ghost var was := View();
      table[count] := Service(Cut(name), pid, Starting, restartOnFault, FULL_BUDGET, 0, 0, false);
      count := count + 1;
      assert table[..count] == was.services + [table[count - 1]];
      FindAppended(was.services, table[count - 1], name, 0);
      RegisterCounts(was, name, pid, restartOnFault);
    }

    ghost predicate IsRunning(name: Name)
      reads this, table
      requires Shape()
    {
      Place(name).Some? && table[Place(name).value].state == Running
    }

    /** service_supervisor_native_mark_running. */
    method SetRunning(name: Name, pid: nat) returns (st: Status)
      requires Valid()
      modifies this, table
      ensures Valid() && OthersKept(name) && View() == MarkRunning(old(View()), name, pid).GetOr(old(View()))
      ensures st == Ok <==> pid != 0 && old(Place(name)).Some? && old(table[Place(name).value].pid) == pid
      ensures st != Ok ==> View() == old(View()) && st == if pid == 0 then EInval else ENoEnt
      ensures st == Ok ==> IsRunning(name) && running == old(running) + (if old(IsRunning(name)) then 0 else 1)
    {
      if pid == 0 {
        return EInval;
      }
      var found := FindIndex(name);
      if found.None? || table[found.value].pid != pid {
        return ENoEnt;
      }
      ghost var was := View();
      var k := found.value;
      if table[k].state != Running {
        running := running + 1;
      }
      if table[k].state == Faulted && faulted != 0 {
        faulted := faulted - 1;
      }
      table[k] := table[k].(state := Running);
      assert table[..count] == was.services[k := table[k]];
      SameFind(was.services, k, table[k], name, 0);
      MarkRunningCounts(was, name, pid);
      st := Ok;
    }

    /** service_supervisor_native_mark_exit; `now` is the clock. */
    method SetExited(name: Name, pid: nat, now: nat) returns (st: Status)
      requires Valid()
      modifies this, table
      ensures Valid() && OthersKept(name) && View() == MarkExit(old(View()), name, pid, now).GetOr(old(View()))
      ensures st == Ok <==> pid != 0 && old(Place(name)).Some? && old(table[Place(name).value].pid) == pid
      ensures st != Ok ==> View() == old(View()) && st == if pid == 0 then EInval else ENoEnt
      ensures st == Ok ==> running == old(running) - (if old(IsRunning(name)) then 1 else 0)
      ensures st == Ok ==> Place(name) == old(Place(name)) && table[Place(name).value].state in {Faulted, Stopped}
    {
      if pid == 0 {
        return EInval;
      }
      var found := FindIndex(name);
      if found.None? || table[found.value].pid != pid {
        return ENoEnt;
      }
      ghost var was := View();
      var k := found.value;
      CountAtLeast(was.services, k, |was.services|);
      if table[k].state == Running && running != 0 {
        running := running - 1;
      }
      Fail(k, now);
      faulted := faulted + 1;
      assert table[..count] == was.services[k := table[k]];
      SameFind(was.services, k, table[k], name, 0);
      MarkExitCounts(was, name, pid, now);
      st := Ok;
    }

    /** The failure accounting of an exit. */
    method Fail(k: nat, now: nat)
      requires Shape() && k < count
      modifies table
      ensures table[k] == Failed(old(table[k]), now) && forall j | 0 <= j < count && j != k :: table[j] == old(table[j])
    {
      var b := table[k].budget;
      table[k] := table[k].(state := Faulted);
      b := b.(failures := b.failures + 1);
      if b.firstFailure == 0 || now < b.firstFailure || now - b.firstFailure > b.window {
        b := b.(firstFailure := now, failures := 1);
      }
      var shift: nat := if b.failures > 6 then 6 else b.failures - 1;
      table[k] := table[k].(budget := b, nextRestart := now + b.backoff * PowerOf2(shift));
      if b.maxRestarts != 0 && b.failures > b.maxRestarts {
        table[k] := table[k].(state := Stopped);
      }
    }

    /** service_supervisor_note_restart. It does not take a running service off the running count. */
    method RestartNoted(name: Name, pid: nat, now: nat) returns (st: Status)
      requires Valid()
      modifies this, table
      ensures Shape() && OthersKept(name) && View() == NoteRestart(old(View()), name, pid, now).GetOr(old(View()))
      ensures st == Ok <==>
        old(Place(name)).Some? && pid != 0 && !old(shutdown) && !old(table[Place(name).value].shutdown)
      ensures st != Ok ==> View() == old(View())
      ensures st != Ok ==> st == if old(Place(name)).None? || pid == 0 then EInval else EShutdown
      ensures st == Ok ==> (Valid() <==> !old(IsRunning(name)))
    {
      var found := FindIndex(name);
      if found.None? || pid == 0 {
        return EInval;
      }
      ghost var was := View();
      var k := found.value;
      if shutdown || table[k].shutdown {
        return EShutdown;
      }
      if table[k].state == Faulted && faulted != 0 {
        faulted := faulted - 1;
      }
      table[k] := table[k].(pid := pid, state := Restarting, restarts := table[k].restarts + 1, nextRestart := now);
      assert table[..count] == was.services[k := table[k]];
      NoteRestartCounts(was, name, pid, now);
      st := Ok;
    }

    /** service_supervisor_request_shutdown. */
    method ShutDown(name: Name) returns (st: Status)
      requires Valid()
      modifies this, table
      ensures Valid() && OthersKept(name) && View() == RequestShutdown(old(View()), name).GetOr(old(View()))
      ensures st == if old(Place(name)).Some? then Ok else ENoEnt
      ensures st == Ok ==> running == old(running) - (if old(IsRunning(name)) then 1 else 0)
      ensures st == Ok ==> forall now :: RestartAllowed(View(), name, now) == EShutdown
    {
      var found := FindIndex(name);
      if found.None? {
        return ENoEnt;
      }
      ghost var was := View();
      var k := found.value;
      CountAtLeast(was.services, k, |was.services|);
      table[k] := table[k].(shutdown := true);
      if table[k].state == Running && running != 0 {
        running := running - 1;
      }
      table[k] := table[k].(state := Stopped);
      assert table[..count] == was.services[k := table[k]];
      SameFind(was.services, k, table[k], name, 0);
      ShutdownCounts(was, name);
      st := Ok;
    }

    /** service_supervisor_begin_shutdown: from then on no known service may restart. */
    method HaltAll()
      requires Valid()
      modifies this, table
      ensures Valid() && View() == BeginShutdown(old(View()))
      ensures forall name: Name, now | Place(name).Some? :: RestartAllowed(View(), name, now) == EShutdown
    {
      ghost var was := View();
      shutdown := true;
      for i := 0 to count
        modifies table
        invariant forall j | 0 <= j < i :: table[j] == Flagged(was.services[j])
        invariant forall j | i <= j < count :: table[j] == was.services[j]
      {
        table[i] := table[i].(shutdown := true);
      }
      assert table[..count] == BeginShutdown(was).services;
      HaltCounts(was);
    }

    /** The supervisor's part of sys_spawn. */
    method SpawnSupervised(name: Name, pid: nat, now: nat) returns (st: Status)
      requires Valid()
      modifies this, table
      ensures Valid() && OthersKept(name)
      ensures st == Ok <==> SpawnService(old(View()), name, pid, now).Some?
      ensures View() == SpawnService(old(View()), name, pid, now).GetOr(old(View()))
      ensures old(Place(name)).Some? && RestartAllowed(old(View()), name, now) != Ok ==>
        st == RestartAllowed(old(View()), name, now)
    {
      var known := FindIndex(name);
      if known.Some? {
        var allowed := RestartAllowed(Sup(table[..count], running, faulted, shutdown), name, now);
        if allowed != Ok {
          return allowed;
        }
      }
      ghost var was := View();
      st := RegisterStarting(name, pid, true);
      if st != Ok {
        return;
      }
      if known.Some? {
        RegisterFinds(was, name, pid, true);
        st := RestartNoted(name, pid, now);
      }
    }
  }
}
