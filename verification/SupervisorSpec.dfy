/** The native path of the service supervisor, kernel/core/service_supervisor.c, on values, and its use by sys_spawn in
    kernel/core/syscall.c. */
module SupervisorSpec {
  import opened MachineInts
  import opened Arith

  const MAX_SERVICES: nat := 16
  const NAME_MAX: nat := 32

  type Name = string

  datatype State = Starting | Running | Faulted | Restarting | Stopped

  /** Failures since `firstFailure`, which opened the current window; 0 there means no window. */
  datatype Budget = Budget(failures: nat, firstFailure: nat, maxRestarts: nat, window: nat, backoff: nat)

  datatype Service = Service(name: Name, pid: nat, state: State, restartOnFault: bool, budget: Budget, nextRestart: nat,
                             restarts: nat, shutdown: bool)

  const FULL_BUDGET: Budget := Budget(0, 0, 5, 6000, 10)

  datatype Sup = Sup(services: seq<Service>, running: nat, faulted: nat, shutdown: bool)

  /** Services among the first `k` in state `st`. */
  function Count(ss: seq<Service>, st: State, k: nat): (n: nat)
    requires k <= |ss|
  {
    if k == 0 then 0 else Count(ss, st, k - 1) + (if ss[k - 1].state == st then 1 else 0)
  }

  function Total(s: Sup, st: State): nat {
    Count(s.services, st, |s.services|)
  }

  /** running_count is exact; faulted_count is never too low. */
  predicate CountsOk(s: Sup) {
    s.running == Total(s, Running) && s.faulted >= Total(s, Faulted)
  }

  /** service_supervisor_find_mut: the first service of that name among those from `i` on. */
  function Find(ss: seq<Service>, name: Name, i: nat): (r: Option<nat>)
    requires i <= |ss|
    ensures r.Some? ==> i <= r.value < |ss| && ss[r.value].name == name
    ensures forall j | i <= j < (if r.Some? then r.value else |ss|) :: ss[j].name != name
    decreases |ss| - i
  {
    if i == |ss| then None else if ss[i].name == name then Some(i) else Find(ss, name, i + 1)
  }

  function Cut(name: Name): Name {
    if |name| < NAME_MAX then name else name[..NAME_MAX - 1]
  }

  /** A counter that never goes below zero. */
  function Down(n: nat, when: bool): nat {
    if when && n > 0 then n - 1 else n
  }

  function With(s: Sup, i: nat, v: Service): Sup
    requires i < |s.services|
  {
    s.(services := s.services[i := v])
  }

  // The operations

  /** service_supervisor_native_register_starting; None for a refused call. */
  function Register(s: Sup, name: Name, pid: nat, restartOnFault: bool): (r: Option<Sup>) {
    if name == "" || pid == 0 then None
    else
      match Find(s.services, name, 0)
      case Some(i) =>
        var v := s.services[i];
        var restarting := v.state == Faulted || v.state == Stopped;
        var t := s.(running := Down(s.running, v.state == Running), faulted := Down(s.faulted, v.state == Faulted));
        Some(With(t, i, v.(pid := pid, state := if restarting then Restarting else Starting,
          restartOnFault := restartOnFault)))
      case None =>
        if |s.services| >= MAX_SERVICES then None
        else Some(s.(services :=
          s.services + [Service(Cut(name), pid, Starting, restartOnFault, FULL_BUDGET, 0, 0, false)]))
  }

  /** service_supervisor_native_mark_running. */
  function MarkRunning(s: Sup, name: Name, pid: nat): (r: Option<Sup>) {
    match Find(s.services, name, 0)
    case None => None
    case Some(i) =>
      var v := s.services[i];
      if pid == 0 || v.pid != pid then None
      else
        var t := s.(running := if v.state == Running then s.running else s.running + 1,
          faulted := Down(s.faulted, v.state == Faulted));
        Some(With(t, i, v.(state := Running)))
  }

  /** A failure at tick `now` is the first of a window. */
  predicate Opens(b: Budget, now: nat) {
    b.firstFailure == 0 || now < b.firstFailure || now - b.firstFailure > b.window
  }

  function Spend(b: Budget, now: nat): (r: Budget)
    ensures r.failures >= 1
  {
    if Opens(b, now) then b.(failures := 1, firstFailure := now) else b.(failures := b.failures + 1)
  }

  /** More failures in the window than restarts allowed. */
  predicate Exhausted(b: Budget) {
    b.maxRestarts != 0 && b.failures > b.maxRestarts
  }

  function Delay(b: Budget): nat {
    b.backoff * PowerOf2(if b.failures > 6 then 6 else if b.failures > 0 then b.failures - 1 else 0)
  }

  /** What a failure at tick `now` does to a service: a longer delay each time, a stop when there were too many. */
  function Failed(v: Service, now: nat): Service {
    var b := Spend(v.budget, now);
    v.(budget := b, nextRestart := now + Delay(b), state := if Exhausted(b) then Stopped else Faulted)
  }

  /** service_supervisor_native_mark_exit. */
  function MarkExit(s: Sup, name: Name, pid: nat, now: nat): (r: Option<Sup>) {
    match Find(s.services, name, 0)
    case None => None
    case Some(i) =>
      var v := s.services[i];
      if pid == 0 || v.pid != pid then None
      else Some(With(s.(running := Down(s.running, v.state == Running), faulted := s.faulted + 1), i, Failed(v, now)))
  }

  /** service_supervisor_restart_allowed. */
  function RestartAllowed(s: Sup, name: Name, now: nat): (st: Status) {
    match Find(s.services, name, 0)
    case None => ENoEnt
    case Some(i) =>
      var v := s.services[i];
      if s.shutdown || v.shutdown then EShutdown
      else if !v.restartOnFault then EPerm
      else if v.state == Stopped || Exhausted(v.budget) then EPerm
      else if now < v.nextRestart then EAgain
      else Ok
  }

  /** service_supervisor_note_restart. */
  function NoteRestart(s: Sup, name: Name, pid: nat, now: nat): (r: Option<Sup>) {
    match Find(s.services, name, 0)
    case None => None
    case Some(i) =>
      var v := s.services[i];
      if pid == 0 || s.shutdown || v.shutdown then None
      else
        Some(With(s.(faulted := Down(s.faulted, v.state == Faulted)), i,
                  v.(pid := pid, state := Restarting, restarts := v.restarts + 1, nextRestart := now)))
  }

  /** service_supervisor_request_shutdown. */
  function RequestShutdown(s: Sup, name: Name): (r: Option<Sup>) {
    match Find(s.services, name, 0)
    case None => None
    case Some(i) =>
      var v := s.services[i];
      Some(With(s.(running := Down(s.running, v.state == Running)), i, v.(state := Stopped, shutdown := true)))
  }

  function Flagged(v: Service): Service {
    v.(shutdown := true)
  }

  /** service_supervisor_begin_shutdown. */
  function BeginShutdown(s: Sup): (r: Sup)
    ensures |r.services| == |s.services|
  {
    s.(services := seq(|s.services|, i requires 0 <= i < |s.services| => Flagged(s.services[i])), shutdown := true)
  }

  // Counting

  lemma {:induction false} CountUpdate(ss: seq<Service>, i: nat, v: Service, st: State, k: nat)
    requires i < |ss| && k <= |ss|
    ensures Count(ss[i := v], st, k) ==
      if i < k then Count(ss, st, k) - (if ss[i].state == st then 1 else 0) + (if v.state == st then 1 else 0)
        else Count(ss, st, k)
  {
    if k > 0 {
      CountUpdate(ss, i, v, st, k - 1);
    }
  }

  lemma {:induction false} CountPrefix(ss: seq<Service>, tt: seq<Service>, st: State, k: nat)
    requires k <= |ss| && k <= |tt| && forall j | 0 <= j < k :: ss[j].state == tt[j].state
    ensures Count(ss, st, k) == Count(tt, st, k)
  {
    if k > 0 {
      CountPrefix(ss, tt, st, k - 1);
    }
  }

  lemma {:induction false} CountAtLeast(ss: seq<Service>, i: nat, k: nat)
    requires i < k <= |ss|
    ensures Count(ss, ss[i].state, k) >= 1
  {
    if i < k - 1 {
      CountAtLeast(ss, i, k - 1);
    }
  }

  lemma TotalUpdate(s: Sup, i: nat, v: Service, running: nat, faulted: nat)
    requires CountsOk(s) && i < |s.services|
    requires running == s.running - (if s.services[i].state == Running then 1 else 0)
      + (if v.state == Running then 1 else 0)
    requires faulted >= s.faulted - (if s.services[i].state == Faulted then 1 else 0)
      + (if v.state == Faulted then 1 else 0)
    ensures CountsOk(Sup(s.services[i := v], running, faulted, s.shutdown))
  {
    CountUpdate(s.services, i, v, Running, |s.services|);
    CountUpdate(s.services, i, v, Faulted, |s.services|);
  }

  // The steps of sys_spawn and of the process life cycle

  /** The supervisor and the live process of each service. */
  datatype Sys = Sys(sup: Sup, live: map<Name, nat>)

  datatype Event =
    Spawn(name: Name, pid: nat, now: nat) | Ready(name: Name) | Exit(name: Name, now: nat) | Shutdown(name: Name) | Halt

  /** sys_spawn's use of the supervisor: a known service must be allowed to restart, then it is registered and the
      restart noted. */
  function SpawnService(s: Sup, name: Name, pid: nat, now: nat): (r: Option<Sup>) {
    var known := Find(s.services, name, 0).Some?;
    if known && RestartAllowed(s, name, now) != Ok then None
    else
      var t := Register(s, name, pid, true);
      if t.None? || !known then t else NoteRestart(t.value, name, pid, now)
  }

  function Step(s: Sys, e: Event): (r: Sys) {
    match e
    case Spawn(name, pid, now) =>
      if name in s.live then s
      else
        var t := SpawnService(s.sup, name, pid, now);
        if t.None? then s else Sys(t.value, s.live[name := pid])
    case Ready(name) =>
      if name !in s.live then s else s.(sup := MarkRunning(s.sup, name, s.live[name]).GetOr(s.sup))
    case Exit(name, now) =>
      if name !in s.live then s else Sys(MarkExit(s.sup, name, s.live[name], now).GetOr(s.sup), s.live - {name})
    case Shutdown(name) => s.(sup := RequestShutdown(s.sup, name).GetOr(s.sup))
    case Halt => s.(sup := BeginShutdown(s.sup))
  }

  lemma RegisterCounts(s: Sup, name: Name, pid: nat, restartOnFault: bool)
    requires CountsOk(s) && Register(s, name, pid, restartOnFault).Some?
    ensures CountsOk(Register(s, name, pid, restartOnFault).value)
  {
    var i := Find(s.services, name, 0);
    var t := Register(s, name, pid, restartOnFault).value;
    if i.Some? {
      CountAtLeast(s.services, i.value, |s.services|);
      TotalUpdate(s, i.value, t.services[i.value], t.running, t.faulted);
    } else {
      CountPrefix(s.services, t.services, Running, |s.services|);
      CountPrefix(s.services, t.services, Faulted, |s.services|);
    }
  }

  /** Noting a restart keeps the counts exactly when the service was not running. */
  lemma NoteRestartCounts(s: Sup, name: Name, pid: nat, now: nat)
    requires CountsOk(s) && NoteRestart(s, name, pid, now).Some?
    ensures CountsOk(NoteRestart(s, name, pid, now).value)
      <==> s.services[Find(s.services, name, 0).value].state != Running
  {
    var i, t := Find(s.services, name, 0).value, NoteRestart(s, name, pid, now).value;
    CountAtLeast(s.services, i, |s.services|);
    if s.services[i].state != Running {
      TotalUpdate(s, i, t.services[i], t.running, t.faulted);
    } else {
      CountUpdate(s.services, i, t.services[i], Running, |s.services|);
    }
  }

  lemma MarkRunningCounts(s: Sup, name: Name, pid: nat)
    requires CountsOk(s) && MarkRunning(s, name, pid).Some?
    ensures CountsOk(MarkRunning(s, name, pid).value)
  {
    var i, t := Find(s.services, name, 0).value, MarkRunning(s, name, pid).value;
    CountAtLeast(s.services, i, |s.services|);
    TotalUpdate(s, i, t.services[i], t.running, t.faulted);
  }

  lemma MarkExitCounts(s: Sup, name: Name, pid: nat, now: nat)
    requires CountsOk(s) && MarkExit(s, name, pid, now).Some?
    ensures CountsOk(MarkExit(s, name, pid, now).value)
  {
    var i, t := Find(s.services, name, 0).value, MarkExit(s, name, pid, now).value;
    CountAtLeast(s.services, i, |s.services|);
    TotalUpdate(s, i, t.services[i], t.running, t.faulted);
  }

  lemma ShutdownCounts(s: Sup, name: Name)
    requires CountsOk(s) && RequestShutdown(s, name).Some?
    ensures CountsOk(RequestShutdown(s, name).value)
  {
    var i, t := Find(s.services, name, 0).value, RequestShutdown(s, name).value;
    CountAtLeast(s.services, i, |s.services|);
    TotalUpdate(s, i, t.services[i], t.running, t.faulted);
  }

  lemma HaltCounts(s: Sup)
    requires CountsOk(s)
    ensures CountsOk(BeginShutdown(s))
  {
    CountPrefix(s.services, BeginShutdown(s).services, Running, |s.services|);
    CountPrefix(s.services, BeginShutdown(s).services, Faulted, |s.services|);
  }

  /** Registering again leaves the service found where it was, and not running. */
  lemma RegisterFinds(s: Sup, name: Name, pid: nat, restartOnFault: bool)
    requires Find(s.services, name, 0).Some? && Register(s, name, pid, restartOnFault).Some?
    ensures var t := Register(s, name, pid, restartOnFault).value;
      && Find(t.services, name, 0) == Find(s.services, name, 0)
      && t.services[Find(s.services, name, 0).value].state != Running
  {
    var i := Find(s.services, name, 0).value;
    SameFind(s.services, i, Register(s, name, pid, restartOnFault).value.services[i], name, 0);
  }

  /** An update that keeps the name keeps every search. */
  lemma {:induction false} SameFind(ss: seq<Service>, i: nat, v: Service, name: Name, k: nat)
    requires i < |ss| && v.name == ss[i].name && k <= |ss|
    ensures Find(ss[i := v], name, k) == Find(ss, name, k)
    decreases |ss| - k
  {
    if k < |ss| && ss[k].name != name {
      SameFind(ss, i, v, name, k + 1);
    }
  }

  lemma SpawnCounts(s: Sup, name: Name, pid: nat, now: nat)
    requires CountsOk(s) && SpawnService(s, name, pid, now).Some?
    ensures CountsOk(SpawnService(s, name, pid, now).value)
  {
    var t := Register(s, name, pid, true);
    RegisterCounts(s, name, pid, true);
    if Find(s.services, name, 0).Some? {
      RegisterFinds(s, name, pid, true);
      NoteRestartCounts(t.value, name, pid, now);
    }
  }

  /** Every step in the order sys_spawn uses keeps the counts. */
  lemma StepCounts(s: Sys, e: Event)
    requires CountsOk(s.sup)
    ensures CountsOk(Step(s, e).sup)
  {
    match e
    case Spawn(name, pid, now) =>
      if SpawnService(s.sup, name, pid, now).Some? { SpawnCounts(s.sup, name, pid, now); }
    case Ready(name) =>
      if name in s.live && MarkRunning(s.sup, name, s.live[name]).Some? {
        MarkRunningCounts(s.sup, name, s.live[name]);
      }
    case Exit(name, now) =>
      if name in s.live && MarkExit(s.sup, name, s.live[name], now).Some? {
        MarkExitCounts(s.sup, name, s.live[name], now);
      }
    case Shutdown(name) =>
      if RequestShutdown(s.sup, name).Some? { ShutdownCounts(s.sup, name); }
    case Halt =>
      HaltCounts(s.sup);
  }

  function Initial(): (s: Sys)
    ensures CountsOk(s.sup) && Agrees(s)
  {
    Sys(Sup([], 0, 0, false), map[])
  }

  /** The state after the events from `i` on. */
  function Run(s: Sys, es: seq<Event>, i: nat): Sys
    requires i <= |es|
    decreases |es| - i
  {
    if i == |es| then s else Run(Step(s, es[i]), es, i + 1)
  }

  /** Over every run running_count is the number of running services and faulted_count at least that of faulted ones. */
  lemma {:induction false} RunCounts(s: Sys, es: seq<Event>, i: nat)
    requires CountsOk(s.sup) && i <= |es|
    ensures CountsOk(Run(s, es, i).sup)
    decreases |es| - i
  {
    if i < |es| {
      StepCounts(s, es[i]);
      RunCounts(Step(s, es[i]), es, i + 1);
    }
  }

  // What a step does to one service

  /** Steps of other services leave a service where it is. */
  lemma UpdateElsewhere(s: Sup, t: Sup, i: nat, name: Name, other: Name)
    requires Find(s.services, other, 0) == Some(i) && other != name && |t.services| == |s.services|
    requires t.services == s.services[i := t.services[i]] && t.services[i].name == s.services[i].name
    ensures Find(t.services, name, 0) == Find(s.services, name, 0)
    ensures match Find(s.services, name, 0) case None => true case Some(j) => t.services[j] == s.services[j]
  {
    SameFind(s.services, i, t.services[i], name, 0);
  }

  lemma {:induction false} FindAppended(ss: seq<Service>, v: Service, name: Name, k: nat)
    requires k <= |ss|
    ensures Find(ss + [v], name, k) ==
      if Find(ss, name, k).Some? then Find(ss, name, k) else if v.name == name then Some(|ss|) else None
    decreases |ss| - k
  {
    if k < |ss| && ss[k].name != name {
      FindAppended(ss, v, name, k + 1);
    }
  }

  lemma {:induction false} FindFlagged(s: Sup, name: Name, k: nat)
    requires k <= |s.services|
    ensures Find(BeginShutdown(s).services, name, k) == Find(s.services, name, k)
    decreases |s.services| - k
  {
    if k < |s.services| && s.services[k].name != name {
      FindFlagged(s, name, k + 1);
    }
  }

  lemma SpawnElsewhere(s: Sup, name: Name, other: Name, pid: nat, now: nat)
    requires other != name && SpawnService(s, other, pid, now).Some? && Find(s.services, name, 0).Some?
    ensures var t := SpawnService(s, other, pid, now).value; var j := Find(s.services, name, 0).value;
      Find(t.services, name, 0) == Some(j) && t.services[j] == s.services[j]
  {
    var r := Register(s, other, pid, true).value;
    var i := Find(s.services, other, 0);
    if i.Some? {
      RegisterFinds(s, other, pid, true);
      UpdateElsewhere(s, r, i.value, name, other);
      UpdateElsewhere(r, SpawnService(s, other, pid, now).value, i.value, name, other);
    } else {
      FindAppended(s.services, r.services[|s.services|], name, 0);
    }
  }

  /** The event is about that service. */
  predicate Concerns(e: Event, name: Name) {
    !e.Halt? && e.name == name
  }

  /** The service of that name, once there is one. */
  function ServiceOf(s: Sys, name: Name): Option<Service> {
    match Find(s.sup.services, name, 0) case None => None case Some(j) => Some(s.sup.services[j])
  }

  lemma StepElsewhere(s: Sys, e: Event, name: Name)
    requires !Concerns(e, name) && ServiceOf(s, name).Some?
    ensures ServiceOf(Step(s, e), name) ==
      Some(if e.Halt? then Flagged(ServiceOf(s, name).value) else ServiceOf(s, name).value)
    ensures name in Step(s, e).live <==> name in s.live
    ensures name in s.live ==> Step(s, e).live[name] == s.live[name]
  {
    var t := Step(s, e);
    if e.Halt? {
      FindFlagged(s.sup, name, 0);
    } else if t.sup != s.sup {
      if e.Spawn? {
        SpawnElsewhere(s.sup, name, e.name, e.pid, e.now);
      } else {
        UpdateElsewhere(s.sup, t.sup, Find(s.sup.services, e.name, 0).value, name, e.name);
      }
    }
  }

  /** What the step does to the service it is about. */
  function Own(v: Service, live: bool, allowed: Status, e: Event): Service {
    match e
    case Spawn(_, pid, now) =>
      if live || allowed != Ok || pid == 0 then v
      else v.(pid := pid, state := Restarting, restartOnFault := true, restarts := v.restarts + 1, nextRestart := now)
    case Ready(_) => if live then v.(state := Running) else v
    case Exit(_, now) => if live then Failed(v, now) else v
    case Shutdown(_) => v.(state := Stopped, shutdown := true)
    case Halt => Flagged(v)
  }

  /** The live process of a service that is known is the one recorded for it. */
  predicate Recorded(s: Sys, name: Name) {
    name in s.live ==>
      match ServiceOf(s, name)
      case None => |name| >= NAME_MAX
      case Some(v) => v.pid == s.live[name] > 0
  }

  ghost predicate Agrees(s: Sys) {
    && (forall j | 0 <= j < |s.sup.services| :: 0 < |s.sup.services[j].name| < NAME_MAX)
    && forall n | n in s.live :: Recorded(s, n)
  }

  lemma SpawnOwn(s: Sup, name: Name, pid: nat, now: nat)
    requires Find(s.services, name, 0).Some? && name != ""
    ensures var i := Find(s.services, name, 0); var t := SpawnService(s, name, pid, now);
      && (t.Some? <==> RestartAllowed(s, name, now) == Ok && pid != 0)
      && (t.Some? ==> Find(t.value.services, name, 0) == i
                      && t.value.services[i.value] == Own(s.services[i.value], false, Ok, Spawn(name, pid, now)))
  {
    var i := Find(s.services, name, 0).value;
    if pid != 0 {
      RegisterFinds(s, name, pid, true);
      var r := Register(s, name, pid, true).value;
      if SpawnService(s, name, pid, now).Some? {
        SameFind(r.services, i, SpawnService(s, name, pid, now).value.services[i], name, 0);
      }
    }
  }

  lemma StepOwn(s: Sys, e: Event)
    requires !e.Halt? && ServiceOf(s, e.name).Some? && Recorded(s, e.name) && e.name != ""
    ensures ServiceOf(Step(s, e), e.name) ==
      Some(Own(ServiceOf(s, e.name).value, e.name in s.live, if e.Spawn? then RestartAllowed(s.sup, e.name, e.now)
        else Ok, e))
    ensures Recorded(Step(s, e), e.name)
  {
    var t, i := Step(s, e), Find(s.sup.services, e.name, 0).value;
    if e.Spawn? {
      SpawnOwn(s.sup, e.name, e.pid, e.now);
    } else {
      SameFind(s.sup.services, i, t.sup.services[i], e.name, 0);
    }
  }

  lemma KnownName(s: Sys, name: Name)
    requires Agrees(s) && ServiceOf(s, name).Some?
    ensures 0 < |name| < NAME_MAX
  {
  }

  /** A spawned service that was not known is found from then on, unless its name was cut. */
  lemma SpawnNew(s: Sys, name: Name, pid: nat, now: nat)
    requires ServiceOf(s, name).None?
    ensures Recorded(Step(s, Spawn(name, pid, now)), name) || name in s.live
  {
    var t := SpawnService(s.sup, name, pid, now);
    if t.Some? {
      FindAppended(s.sup.services, t.value.services[|s.sup.services|], name, 0);
    }
  }

  lemma StepRecorded(s: Sys, e: Event, n: Name)
    requires Agrees(s) && n in Step(s, e).live
    ensures Recorded(Step(s, e), n)
  {
    var t := Step(s, e);
    if ServiceOf(s, n).Some? {
      KnownName(s, n);
      if Concerns(e, n) { StepOwn(s, e); } else { StepElsewhere(s, e, n); }
    } else if e.Spawn? && e.name == n && n !in s.live {
      SpawnNew(s, n, e.pid, e.now);
    } else {
      assert n in s.live && Recorded(s, n);
      StepNames(s, e);
    }
  }

  lemma StepNames(s: Sys, e: Event)
    requires Agrees(s)
    ensures forall j | 0 <= j < |Step(s, e).sup.services| :: 0 < |Step(s, e).sup.services[j].name| < NAME_MAX
  {
    if e.Spawn? && SpawnService(s.sup, e.name, e.pid, e.now).Some? && Find(s.sup.services, e.name, 0).Some? {
      RegisterFinds(s.sup, e.name, e.pid, true);
    }
  }

  lemma StepAgrees(s: Sys, e: Event)
    requires Agrees(s)
    ensures Agrees(Step(s, e))
  {
    StepNames(s, e);
    forall n | n in Step(s, e).live
      ensures Recorded(Step(s, e), n)
    {
      StepRecorded(s, e, n);
    }
  }

  /** From the start every run keeps the live processes and the services' records in step. */
  lemma {:induction false} RunAgrees(s: Sys, es: seq<Event>, i: nat)
    requires Agrees(s) && i <= |es|
    ensures Agrees(Run(s, es, i))
    decreases |es| - i
  {
    if i < |es| {
      StepAgrees(s, es[i]);
      RunAgrees(Step(s, es[i]), es, i + 1);
    }
  }

  // Stopping

  predicate IsStopped(s: Sys, name: Name) {
    ServiceOf(s, name).Some? && ServiceOf(s, name).value.state == Stopped
  }

  /** The step makes a live process run again, or ends it within its budget. */
  predicate Revives(s: Sys, name: Name, e: Event)
    requires IsStopped(s, name)
  {
    && Concerns(e, name) && name in s.live
    && (e.Ready? || (e.Exit? && !Exhausted(Spend(ServiceOf(s, name).value.budget, e.now))))
  }

  /** A stopped service stays stopped through a step unless its process is still live and reports ready or fails. */
  lemma StoppedStaysIff(s: Sys, name: Name, e: Event)
    requires Agrees(s) && IsStopped(s, name)
    ensures IsStopped(Step(s, e), name) <==> !Revives(s, name, e)
    ensures name !in s.live ==> name !in Step(s, e).live
  {
    KnownName(s, name);
    if Concerns(e, name) {
      StepOwn(s, e);
    } else {
      StepElsewhere(s, e, name);
    }
  }

  /** Asked to shut down while its process lives, a service is stopped, and running again at the next ready report. */
  lemma ReadyRevives(s: Sys, name: Name)
    requires Agrees(s) && ServiceOf(s, name).Some? && name in s.live
    ensures var t := Step(s, Shutdown(name));
      IsStopped(t, name) && ServiceOf(Step(t, Ready(name)), name) == Some(ServiceOf(t, name).value.(state := Running))
  {
    KnownName(s, name);
    StepOwn(s, Shutdown(name));
    StepAgrees(s, Shutdown(name));
    StepOwn(Step(s, Shutdown(name)), Ready(name));
  }

  function OneService(): (s: Sys)
    ensures CountsOk(s.sup) && Agrees(s)
  {
    StepAgrees(Initial(), Spawn("a", 7, 1));
    StepCounts(Initial(), Spawn("a", 7, 1));
    Step(Initial(), Spawn("a", 7, 1))
  }

  /** For example the first service ever started. */
  lemma ReadyAfterShutdown()
    ensures var t := Step(OneService(), Shutdown("a"));
      IsStopped(t, "a") && !IsStopped(Step(t, Ready("a")), "a")
  {
    var s := OneService();
    assert s.sup.services[0].name == "a" && s.sup.services[0].pid == 7;
    ReadyRevives(s, "a");
  }

  /** Throughout a run every attempt to start `name` is refused and changes nothing. */
  predicate AlwaysRefused(s: Sys, name: Name, es: seq<Event>, i: nat)
    requires i <= |es|
    decreases |es| - i
  {
    i == |es| ||
    (&& (es[i].Spawn? && es[i].name == name ==>
      RestartAllowed(s.sup, name, es[i].now) in {EPerm, EShutdown} && Step(s, es[i]) == s)
     && AlwaysRefused(Step(s, es[i]), name, es, i + 1))
  }

  /** Once stopped with its process gone, a service is never started again in any later run. */
  lemma {:induction false} StoppedForGood(s: Sys, name: Name, es: seq<Event>, i: nat)
    requires Agrees(s) && IsStopped(s, name) && name !in s.live && i <= |es|
    ensures AlwaysRefused(s, name, es, i)
    decreases |es| - i
  {
    if i < |es| {
      StoppedStaysIff(s, name, es[i]);
      StepAgrees(s, es[i]);
      StoppedForGood(Step(s, es[i]), name, es, i + 1);
    }
  }

  /** The service, or every service, has been asked to shut down. */
  predicate ShuttingDown(s: Sys, name: Name) {
    ServiceOf(s, name).Some? && (s.sup.shutdown || ServiceOf(s, name).value.shutdown)
  }

  lemma ShutdownStays(s: Sys, name: Name, e: Event)
    requires Agrees(s) && ShuttingDown(s, name)
    ensures ShuttingDown(Step(s, e), name)
  {
    KnownName(s, name);
    if Concerns(e, name) {
      StepOwn(s, e);
    } else {
      StepElsewhere(s, e, name);
    }
  }

  /** Once a service has been asked to shut down, live or not, every later attempt to start it is refused. */
  lemma {:induction false} ShutdownForGood(s: Sys, name: Name, es: seq<Event>, i: nat)
    requires Agrees(s) && ShuttingDown(s, name) && i <= |es|
    ensures AlwaysRefused(s, name, es, i)
    decreases |es| - i
  {
    if i < |es| {
      ShutdownStays(s, name, es[i]);
      StepAgrees(s, es[i]);
      ShutdownForGood(Step(s, es[i]), name, es, i + 1);
    }
  }

  // The restart budget

  /** A budget after failures at the first `k` ticks. */
  function Spent(b: Budget, ticks: seq<nat>, k: nat): (r: Budget)
    requires k <= |ticks|
    ensures r.window == b.window && r.backoff == b.backoff && r.maxRestarts == b.maxRestarts
  {
    if k == 0 then b else Spend(Spent(b, ticks, k - 1), ticks[k - 1])
  }

  /** All ticks lie in the window that the first one opens. */
  predicate OneWindow(b: Budget, ticks: seq<nat>) {
    |ticks| >= 1 && Opens(b, ticks[0]) && forall i | 0 <= i < |ticks| :: ticks[0] <= ticks[i] <= ticks[0] + b.window
  }

  /** The k-th failure in a window is counted as the k-th, except that a window opened at tick 0 is not seen. */
  lemma {:induction false} KthFailure(b: Budget, ticks: seq<nat>, k: nat)
    requires OneWindow(b, ticks) && 1 <= k <= |ticks|
    ensures Spent(b, ticks, k).failures <= k
    ensures Spent(b, ticks, k).failures == k <==> ticks[0] > 0 || k == 1
    ensures ticks[0] > 0 ==> Spent(b, ticks, k).firstFailure == ticks[0]
    ensures k == 1 ==> Spent(b, ticks, k).firstFailure == ticks[0]
  {
    if k > 1 {
      KthFailure(b, ticks, k - 1);
    } else {
      assert Spent(b, ticks, 0) == b;
    }
  }

  /** Failures at ticks 0 and 5 count as one. */
  lemma FailureAtTickZero()
    ensures OneWindow(FULL_BUDGET, [0, 5]) && Spent(FULL_BUDGET, [0, 5], 2).failures == 1
  {
    assert Spent(FULL_BUDGET, [0, 5], 1) == Spend(FULL_BUDGET, 0);
  }

  lemma {:induction false} SpentPrefix(b: Budget, ticks: seq<nat>, now: nat, k: nat)
    requires k <= |ticks|
    ensures Spent(b, ticks + [now], k) == Spent(b, ticks, k)
  {
    if k > 0 {
      SpentPrefix(b, ticks, now, k - 1);
    }
  }

  /** Ticks at which the live process of `name` exits in the run from `i` on. */
  function Exits(s: Sys, es: seq<Event>, i: nat, name: Name): seq<nat>
    requires i <= |es|
    decreases |es| - i
  {
    if i == |es| then []
    else
      var own := if es[i].Exit? && es[i].name == name && name in s.live then [es[i].now] else [];
      own + Exits(Step(s, es[i]), es, i + 1, name)
  }

  /** The service's budget is `b` spent at those ticks. */
  predicate HasSpent(s: Sys, name: Name, b: Budget, ticks: seq<nat>) {
    ServiceOf(s, name).Some? && ServiceOf(s, name).value.budget == Spent(b, ticks, |ticks|)
  }

  lemma StepSpends(s: Sys, e: Event, name: Name, b: Budget, past: seq<nat>)
    requires Agrees(s) && HasSpent(s, name, b, past)
    ensures HasSpent(Step(s, e), name, b, past + if e.Exit? && e.name == name && name in s.live then [e.now] else [])
  {
    KnownName(s, name);
    if Concerns(e, name) {
      StepOwn(s, e);
      if e.Exit? { SpentPrefix(b, past, e.now, |past|); }
    } else {
      StepElsewhere(s, e, name);
    }
    assert past + [] == past;
  }

  /** Over every run, whatever else happens, a service's budget is spent exactly by the exits of its own process. */
  lemma {:induction false} RunSpends(s: Sys, es: seq<Event>, i: nat, name: Name, b: Budget, past: seq<nat>)
    requires Agrees(s) && HasSpent(s, name, b, past) && i <= |es|
    ensures HasSpent(Run(s, es, i), name, b, past + Exits(s, es, i, name))
    decreases |es| - i
  {
    if i == |es| {
      assert past + [] == past;
    } else {
      var own := if es[i].Exit? && es[i].name == name && name in s.live then [es[i].now] else [];
      var rest := Exits(Step(s, es[i]), es, i + 1, name);
      StepSpends(s, es[i], name, b, past);
      StepAgrees(s, es[i]);
      RunSpends(Step(s, es[i]), es, i + 1, name, b, past + own);
      assert past + (own + rest) == past + own + rest;
    }
  }

  /** What the last of these failures in one window leaves: the k-th of k delays the restart by the base delay times 2
      to the min(k - 1, 6), and stops the service exactly when k exceeds the restarts allowed. */
  predicate AsKth(v: Service, b: Budget, ticks: seq<nat>)
    requires |ticks| >= 1
  {
    var k := |ticks|;
    && (v.budget.failures == k <==> ticks[0] > 0 || k == 1)
    && (ticks[0] > 0 || k == 1 ==>
          && v.nextRestart == ticks[k - 1] + b.backoff * PowerOf2(Min(k - 1, 6))
          && (v.state == Stopped <==> b.maxRestarts != 0 && k > b.maxRestarts))
  }

  lemma FailedAsKth(v: Service, b: Budget, past: seq<nat>, now: nat)
    requires v.budget == Spent(b, past, |past|) && OneWindow(b, past + [now])
    ensures AsKth(Failed(v, now), b, past + [now])
  {
    SpentPrefix(b, past, now, |past|);
    KthFailure(b, past + [now], |past| + 1);
  }

  /** In every run, across anything that happens to this and other services: the k-th exit of a service within one
      window has the delay and the stop of a k-th failure. */
  lemma WindowBudget(s: Sys, es: seq<Event>, name: Name, now: nat)
    requires Agrees(s) && ServiceOf(s, name).Some? && name in Run(s, es, 0).live
    requires OneWindow(ServiceOf(s, name).value.budget, Exits(s, es, 0, name) + [now])
    ensures var t := Step(Run(s, es, 0), Exit(name, now));
      && name !in t.live && ServiceOf(t, name).Some?
      && AsKth(ServiceOf(t, name).value, ServiceOf(s, name).value.budget, Exits(s, es, 0, name) + [now])
  {
    var r, b, past := Run(s, es, 0), ServiceOf(s, name).value.budget, Exits(s, es, 0, name);
    assert HasSpent(s, name, b, []) && [] + past == past;
    RunSpends(s, es, 0, name, b, []);
    RunAgrees(s, es, 0);
    KnownName(r, name);
    StepOwn(r, Exit(name, now));
    FailedAsKth(ServiceOf(r, name).value, b, past, now);
  }

  /** In every run: a service that exits more often in one window than it may be restarted is not started again,
      whatever follows. */
  lemma TooManyStops(s: Sys, es: seq<Event>, name: Name, now: nat, later: seq<Event>)
    requires Agrees(s) && ServiceOf(s, name).Some? && name in Run(s, es, 0).live
    requires OneWindow(ServiceOf(s, name).value.budget, Exits(s, es, 0, name) + [now])
    requires (Exits(s, es, 0, name) + [now])[0] > 0
    requires 0 < ServiceOf(s, name).value.budget.maxRestarts <= |Exits(s, es, 0, name)|
    ensures IsStopped(Step(Run(s, es, 0), Exit(name, now)), name)
    ensures AlwaysRefused(Step(Run(s, es, 0), Exit(name, now)), name, later, 0)
  {
    WindowBudget(s, es, name, now);
    RunAgrees(s, es, 0);
    StepAgrees(Run(s, es, 0), Exit(name, now));
    StoppedForGood(Step(Run(s, es, 0), Exit(name, now)), name, later, 0);
  }
}
