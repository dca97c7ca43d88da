/** Theorems about all runs of the HSM request path. */
module HsmRuns {
  import opened Base
  import opened Coroutine
  import opened Mutex
  import opened Monitor
  import opened HsmSystem

  // ---------------------------------------------------------------- runs

  /** n tasklets, all blocked. */
  ghost function BootTasks(n: nat): Sched {
    Sched(seq(n, i => Blocked), [], None, {})
  }

  /** State after boot: all services up, all tasklets blocked, guest 0 entered. */
  ghost function BootSys(n: nat): Sys
    requires 0 < n < CO_MAX
  {
    var gs := seq(n, i => Guest(Ready, 0, 0, 0));
    Sys(DispatchGuest(Mon(gs, 0, NonSecure, 0), 0), seq(n, i => Server(true, 0, 0, 0, 0, AtRecv)),
        BootTasks(n), Lock(None, []), InGuestCode)
  }

  lemma BootInv(n: nat)
    requires 0 < n < CO_MAX
    ensures Inv(BootSys(n))
  {
    var s := BootSys(n);
    forall i | 0 <= i < n ensures GuestOk(s, i) && ServerOk(s, i) && LockingOk(s, i) {}
  }

  ghost function Creations(n: nat): (ops: seq<Op>)
    ensures |ops| == n && forall k :: 0 <= k < n ==> ops[k] == CreateOp(true)
  {
    seq(n, i => CreateOp(true))
  }

  lemma CreateOne(n: nat)
    requires n + 1 < CO_MAX
    ensures Create(BootTasks(n), true).0 == BootTasks(n + 1)
  {
    assert BootTasks(n).state + [Blocked] == BootTasks(n + 1).state;
  }

  /** The coroutines of the boot state are what creating one blocked tasklet per guest gives. */
  lemma {:induction false} BootTasklets(n: nat)
    requires n < CO_MAX
    ensures After(InitSched(), Creations(n)) == BootTasks(n)
  {
    if n > 0 {
      BootTasklets(n - 1);
      CreateOne(n - 1);
      AlwaysConsistent(Creations(n - 1));
      assert Creations(n)[..n - 1] == Creations(n - 1);
    } else {
      assert BootTasks(0).state == [];
    }
  }

  ghost predicate Moves(s: Sys, ps: seq<Policy>, a: Step, s': Sys) {
    Inv(s) && |ps| == |s.mon.gs| ==> CanStep(s, a) && s' == Advance(s, ps, a)
  }

  /** ss is a run: the states around the steps. */
  ghost predicate IsRun(ss: seq<Sys>, acts: seq<Step>, ps: seq<Policy>) {
    && |ss| == |acts| + 1 && Inv(ss[0]) && |ps| == |ss[0].mon.gs|
    && forall k {:trigger Moves(ss[k], ps, acts[k], ss[k + 1])} :: 0 <= k < |acts| ==> Moves(ss[k], ps, acts[k], ss[k + 1])
  }

  lemma SameGuests(s: Sys, ps: seq<Policy>, a: Step)
    requires Inv(s) && CanStep(s, a) && |ps| == |s.mon.gs| && Inv(Advance(s, ps, a))
    ensures |Advance(s, ps, a).mon.gs| == |s.mon.gs|
  {
    assert |Advance(s, ps, a).srv| == |s.srv|;
  }

  lemma {:induction false} AlwaysInv(ss: seq<Sys>, acts: seq<Step>, ps: seq<Policy>, n: nat)
    requires IsRun(ss, acts, ps) && n <= |acts|
    ensures Inv(ss[n]) && |ss[n].mon.gs| == |ps|
  {
    if n > 0 {
      var m := n - 1;
      AlwaysInv(ss, acts, ps, m);
      assert Moves(ss[m], ps, acts[m], ss[m + 1]);
      StepKeepsInv(ss[m], ps, acts[m]);
      SameGuests(ss[m], ps, acts[m]);
    }
  }

  /** Scheduler safety in every reachable state: only the current guest can be marked running, and
      then the representative is the guest itself; a back-off delay means a restart is under way;
      and the wrong-state panic of the tasklet dispatcher is never reached. */
  lemma SchedulerSafety(ss: seq<Sys>, acts: seq<Step>, ps: seq<Policy>, n: nat)
    requires IsRun(ss, acts, ps) && n <= |acts|
    ensures var m := ss[n].mon;
            && (forall i :: 0 <= i < |m.gs| && m.gs[i].st == GuestState.Running ==> i == m.cur && m.rep == NonSecure)
            && (forall i :: 0 <= i < |m.gs| && m.gs[i].delay > 0 ==> m.gs[i].st == Restarting)
            && ss[n].ctl != Panicked
  {
    AlwaysInv(ss, acts, ps, n);
    forall i | 0 <= i < |ss[n].mon.gs|
      ensures ss[n].mon.gs[i].st == GuestState.Running ==> i == ss[n].mon.cur && ss[n].mon.rep == NonSecure
      ensures ss[n].mon.gs[i].delay > 0 ==> ss[n].mon.gs[i].st == Restarting
    {
      assert GuestOk(ss[n], i);
    }
  }

  // ---------------------------------------------------------------- what the monitor does to a guest

  ghost predicate SameCounters(g: Guest, g': Guest) {
    g'.restarts == g.restarts && g'.first == g.first
  }

  /** Scheduling and back-off neither make a guest wait nor end its wait, do not revive a dead one,
      and leave the restart counters alone. */
  ghost predicate Scheduled(g: Guest, g': Guest) {
    && SameCounters(g, g')
    && (g'.st == WaitingHsm <==> g.st == WaitingHsm)
    && (g'.st == GuestState.Faulted <==> g.st == GuestState.Faulted)
  }

  lemma DecisionOnGuest(s: Sys, m: Mon, hsm: seq<bool>, handler: bool, i: nat)
    requires Shape(s) && |hsm| == |m.gs| == |s.co.state| && m.cur < |m.gs| && i < |hsm|
    ensures var mv := ScheduleNext(m, hsm, handler);
            && (mv.1.EnterTasklet? ==> mv.1.g < |s.co.state|)
            && var m' := Obey(s, mv).mon;
               && |m'.gs| == |m.gs| && Scheduled(m.gs[i], m'.gs[i]) && m'.ticks == m.ticks
               && (m.gs[i].st == Restarting ==> m'.gs[i] == m.gs[i])
  {
    DecisionsNeverPanic(m, hsm, handler);
  }

  lemma TakenOffGuest(s: Sys, i: nat)
    requires Inv(s) && s.ctl == InGuestCode && i < |s.mon.gs|
    ensures var m := TakenOff(s).mon;
            |m.gs| == |s.mon.gs| && Scheduled(s.mon.gs[i], m.gs[i]) && m.ticks == TickOne(s.mon).ticks
  {
    assert GuestOk(s, i);
  }

  lemma TimerOnGuest(s: Sys, trap: Trap, i: nat)
    requires Inv(s) && CanStep(s, Timer(trap)) && i < |s.mon.gs|
    ensures var m := TimerStep(s, trap).mon;
            |m.gs| == |s.mon.gs| && Scheduled(s.mon.gs[i], m.gs[i]) && m.ticks == TickOne(s.mon).ticks
  {
    if trap == InGuest {
      TimerInGuestShape(s);
      TakenOffGuest(s, i);
      DecisionOnGuest(TakenOff(s), TakenOff(s).mon, RunnableTasklets(s), true, i);
    } else {
      assert GuestOk(s, i);
    }
  }

  lemma FaultOnGuest(s: Sys, ps: seq<Policy>, i: nat)
    requires Inv(s) && s.ctl == InGuestCode && |ps| == |s.mon.gs| && i < |s.mon.gs|
    ensures var m, m' := Punish(s.mon, ps), FaultStep(s, ps).mon;
            |m'.gs| == |s.mon.gs| && Scheduled(m.gs[i], m'.gs[i]) && m'.ticks == s.mon.ticks
  {
    DecisionOnGuest(s, Punish(s.mon, ps), RunnableTasklets(s), true, i);
  }

  lemma TurnOnGuest(s: Sys, i: nat)
    requires Inv(s) && i < |s.mon.gs|
    ensures ScheduleNext(s.mon, RunnableTasklets(s), false).1.EnterTasklet? ==>
              ScheduleNext(s.mon, RunnableTasklets(s), false).1.g < |s.co.state|
    ensures var m' := LoopStep(s).mon;
            |m'.gs| == |s.mon.gs| && Scheduled(s.mon.gs[i], m'.gs[i]) && m'.ticks == s.mon.ticks
  {
    DecisionOnGuest(s, s.mon, RunnableTasklets(s), false, i);
  }

  // ---------------------------------------------------------------- terminal states

  lemma TimerKeepsFaulted(s: Sys, trap: Trap, i: nat)
    requires Inv(s) && CanStep(s, Timer(trap)) && i < |s.co.state| && s.co.state[i] == CoState.Faulted
    ensures var s' := TimerStep(s, trap); i < |s'.co.state| && s'.co.state[i] == CoState.Faulted
  {
    if trap == InGuest {
      TimerInGuestShape(s);
      DecisionsNeverPanic(TakenOff(s).mon, RunnableTasklets(s), true);
    }
  }

  lemma StepKeepsFaulted(s: Sys, ps: seq<Policy>, a: Step, i: nat)
    requires Inv(s) && CanStep(s, a) && |ps| == |s.mon.gs|
    requires i < |s.co.state| && s.co.state[i] == CoState.Faulted
    ensures var s' := Advance(s, ps, a); i < |s'.co.state| && s'.co.state[i] == CoState.Faulted
  {
    match a
    case Timer(trap) => TimerKeepsFaulted(s, trap, i);
    case TaskletFaults => DeathEffect(s.co, s.lock, s.mon.cur, i);
    case Releases => HandOffEffect(s.co, s.lock);
    case _ =>
  }

  lemma MoveKeepsFaulted(s: Sys, ps: seq<Policy>, a: Step, s': Sys, i: nat)
    requires Inv(s) && |ps| == |s.mon.gs| && Moves(s, ps, a, s') && i < |s.co.state| && s.co.state[i] == CoState.Faulted
    ensures i < |s'.co.state| && s'.co.state[i] == CoState.Faulted
  {
    StepKeepsFaulted(s, ps, a, i);
  }

  lemma {:induction false} StaysFaulted(ss: seq<Sys>, acts: seq<Step>, ps: seq<Policy>, a: nat, b: nat, i: nat)
    requires IsRun(ss, acts, ps) && a <= b <= |acts|
    requires i < |ss[a].co.state| && ss[a].co.state[i] == CoState.Faulted
    ensures i < |ss[b].co.state| && ss[b].co.state[i] == CoState.Faulted
    decreases b
  {
    if a < b {
      var m := b - 1;
      StaysFaulted(ss, acts, ps, a, m, i);
      AlwaysInv(ss, acts, ps, m);
      assert Moves(ss[m], ps, acts[m], ss[m + 1]);
      MoveKeepsFaulted(ss[m], ps, acts[m], ss[m + 1], i);
    }
  }

  /** Guest i is not waiting for its tasklet, and the tasklet is not queued, not parked, not running,
      not the lock's holder and not in its wait list. */
  ghost predicate Abandoned(s: Sys, i: nat) {
    && i < |s.mon.gs| && s.mon.gs[i].st != WaitingHsm
    && i !in s.co.runq && i !in s.co.parked && s.co.current != Some(i)
    && s.lock.holder != Some(i) && i !in s.lock.waiters
  }

  lemma FaultedIsAbandoned(s: Sys, i: nat)
    requires Inv(s) && i < |s.co.state| && s.co.state[i] == CoState.Faulted
    ensures Abandoned(s, i)
  {
    assert GuestOk(s, i) && ServerOk(s, i) && LockingOk(s, i);
  }

  /** No client of a dead service: from the moment guest i's tasklet is faulted, it is abandoned in
      every later state. */
  lemma NoClientOfDeadService(ss: seq<Sys>, acts: seq<Step>, ps: seq<Policy>, a: nat, b: nat, i: nat)
    requires IsRun(ss, acts, ps) && a <= b <= |acts|
    requires i < |ss[a].co.state| && ss[a].co.state[i] == CoState.Faulted
    ensures Abandoned(ss[b], i)
  {
    StaysFaulted(ss, acts, ps, a, b, i);
    AlwaysInv(ss, acts, ps, b);
    FaultedIsAbandoned(ss[b], i);
  }

  lemma StepKeepsDead(s: Sys, ps: seq<Policy>, a: Step, i: nat)
    requires Inv(s) && CanStep(s, a) && |ps| == |s.mon.gs|
    requires i < |s.mon.gs| && s.mon.gs[i].st == GuestState.Faulted
    ensures var s' := Advance(s, ps, a); i < |s'.mon.gs| && s'.mon.gs[i].st == GuestState.Faulted
  {
    assert GuestOk(s, i);
    match a
    case Timer(trap) => TimerOnGuest(s, trap, i);
    case GuestFaults => FaultOnGuest(s, ps, i);
    case LoopTurn => TurnOnGuest(s, i);
    case _ =>
  }

  /** FAULTED is never left. */
  lemma {:induction false} GivenUpForever(ss: seq<Sys>, acts: seq<Step>, ps: seq<Policy>, a: nat, b: nat, i: nat)
    requires IsRun(ss, acts, ps) && a <= b <= |acts|
    requires i < |ss[a].mon.gs| && ss[a].mon.gs[i].st == GuestState.Faulted
    ensures i < |ss[b].mon.gs| && ss[b].mon.gs[i].st == GuestState.Faulted && !RunsCode(ss[b], i)
    decreases b
  {
    AlwaysInv(ss, acts, ps, b);
    if a < b {
      var m := b - 1;
      GivenUpForever(ss, acts, ps, a, m, i);
      AlwaysInv(ss, acts, ps, m);
      assert Moves(ss[m], ps, acts[m], ss[m + 1]);
      StepKeepsDead(ss[m], ps, acts[m], i);
    }
  }

  // ---------------------------------------------------------------- no lost wake-up

  /** A request the server accepts: a new counter value and a length that fits. */
  ghost predicate Acceptable(notify: u16, len: u16, last: u16) {
    notify != last && len <= SLOT_BYTES
  }

  /** The client's side of the protocol: the counter is bumped before a submit that the service takes,
      and while a request is open its header stays acceptable. */
  ghost predicate Disciplined(s: Sys, a: Step)
    requires Shape(s)
  {
    var v := s.srv[s.mon.cur];
    match a
    case Submit(size) => v.ready && 0 < size <= SLOT_BYTES ==> Acceptable(v.notify, v.len, v.last)
    case GuestWrites(notify, len) => s.mon.gs[s.mon.cur].st == WaitingHsm ==> Acceptable(notify, len, v.last)
    case _ => true
  }

  /** A waiting guest whose tasklet has not received yet has an acceptable request in its slot, and
      the tasklet is on its way. */
  ghost predicate OpenOk(s: Sys, i: int)
    requires Shape(s) && 0 <= i < |s.mon.gs|
  {
    var v := s.srv[i];
    s.mon.gs[i].st == WaitingHsm && v.pc == AtRecv ==>
      Acceptable(v.notify, v.len, v.last) && s.co.state[i] != Blocked
  }

  ghost predicate AllOpenOk(s: Sys)
    requires Shape(s)
  {
    forall i {:trigger OpenOk(s, i)} :: 0 <= i < |s.mon.gs| ==> OpenOk(s, i)
  }

  lemma BootOpen(n: nat)
    requires 0 < n < CO_MAX
    ensures Inv(BootSys(n)) && AllOpenOk(BootSys(n))
  {
    BootInv(n);
    forall i | 0 <= i < n ensures OpenOk(BootSys(n), i) {}
  }

  /** A decision neither blocks nor kills a coroutine, and leaves the services alone. */
  lemma DecisionOnTasklet(s: Sys, m: Mon, hsm: seq<bool>, handler: bool, i: nat)
    requires Shape(s) && |hsm| == |m.gs| == |s.co.state| && m.cur < |m.gs| && i < |hsm|
    ensures var mv := ScheduleNext(m, hsm, handler);
            && (mv.1.EnterTasklet? ==> mv.1.g < |s.co.state|)
            && var s' := Obey(s, mv);
               SameTasklet(s, s', i)
  {
    DecisionsNeverPanic(m, hsm, handler);
  }

  ghost predicate SameTasklet(s: Sys, s': Sys, i: nat) {
    && s'.srv == s.srv && i < |s'.co.state| == |s.co.state|
    && (s'.co.state[i] == Blocked <==> s.co.state[i] == Blocked)
    && (s'.co.state[i] == CoState.Faulted <==> s.co.state[i] == CoState.Faulted)
  }

  lemma TimerOnTasklet(s: Sys, trap: Trap, i: nat)
    requires Inv(s) && CanStep(s, Timer(trap)) && i < |s.mon.gs|
    ensures SameTasklet(s, TimerStep(s, trap), i)
  {
    if trap == InGuest {
      TimerInGuestShape(s);
      DecisionOnTasklet(TakenOff(s), TakenOff(s).mon, RunnableTasklets(s), true, i);
    }
  }

  lemma TimerKeepsOpen(s: Sys, trap: Trap, i: nat)
    requires Inv(s) && CanStep(s, Timer(trap)) && i < |s.mon.gs| && OpenOk(s, i)
    requires Inv(TimerStep(s, trap)) && |TimerStep(s, trap).mon.gs| == |s.mon.gs|
    ensures OpenOk(TimerStep(s, trap), i)
  {
    TimerOnGuest(s, trap, i);
    TimerOnTasklet(s, trap, i);
  }

  lemma FaultKeepsOpen(s: Sys, ps: seq<Policy>, i: nat)
    requires Inv(s) && s.ctl == InGuestCode && |ps| == |s.mon.gs| && i < |s.mon.gs| && OpenOk(s, i)
    requires Inv(FaultStep(s, ps)) && |FaultStep(s, ps).mon.gs| == |s.mon.gs|
    ensures OpenOk(FaultStep(s, ps), i)
  {
    var c := s.mon.cur;
    var m := Punish(s.mon, ps);
    var s1 := if m.gs[c].st == Restarting && ps[c].clears then s.(srv := s.srv[c := Cleared(s.srv[c])]) else s;
    var s2 := s1.(mon := m);
    assert OpenOk(s2, i);
    DecisionOnTasklet(s2, m, RunnableTasklets(s), true, i);
    DecisionOnGuest(s2, m, RunnableTasklets(s), true, i);
    assert FaultStep(s, ps) == Obey(s2, ScheduleNext(m, RunnableTasklets(s), true));
  }

  /** The steps of the running tasklet. */
  ghost predicate IsTaskletStep(a: Step) {
    a == Recv || a == Acquires || a == AcquireReturns || a == Releases || a == Sends || a == TaskletFaults
  }

  lemma ReleaseKeepsOpen(s: Sys, i: nat)
    requires Inv(s) && At(s, Locked) && i < |s.mon.gs| && OpenOk(s, i) && Inv(ReleaseStep(s))
    ensures OpenOk(ReleaseStep(s), i)
  {
    HandOffEffect(s.co, s.lock);
  }

  lemma TaskletFaultKeepsOpen(s: Sys, i: nat)
    requires Inv(s) && s.ctl == InTaskletCode && i < |s.mon.gs| && OpenOk(s, i) && Inv(TaskletFaultStep(s))
    ensures OpenOk(TaskletFaultStep(s), i)
  {
    DeathEffect(s.co, s.lock, s.mon.cur, i);
  }

  lemma TaskletKeepsOpen(s: Sys, ps: seq<Policy>, a: Step, i: nat)
    requires Inv(s) && CanStep(s, a) && |ps| == |s.mon.gs| && i < |ps| && OpenOk(s, i) && IsTaskletStep(a)
    requires Inv(Advance(s, ps, a)) && |Advance(s, ps, a).mon.gs| == |s.mon.gs|
    ensures OpenOk(Advance(s, ps, a), i)
  {
    assert ServerOk(s, i);
    match a
    case Releases => ReleaseKeepsOpen(s, i);
    case TaskletFaults => TaskletFaultKeepsOpen(s, i);
    case _ =>
  }

  lemma TurnKeepsOpen(s: Sys, i: nat)
    requires Inv(s) && s.ctl == InLoop && i < |s.mon.gs| && OpenOk(s, i)
    requires Inv(LoopStep(s)) && |LoopStep(s).mon.gs| == |s.mon.gs|
    ensures OpenOk(LoopStep(s), i)
  {
    TurnOnGuest(s, i);
    DecisionOnTasklet(s, s.mon, RunnableTasklets(s), false, i);
  }

  lemma SubmitKeepsOpen(s: Sys, size: u16, i: nat)
    requires Inv(s) && s.ctl == InGuestCode && i < |s.mon.gs| && OpenOk(s, i) && Disciplined(s, Submit(size))
    requires Inv(SubmitStep(s, size)) && |SubmitStep(s, size).mon.gs| == |s.mon.gs|
    ensures OpenOk(SubmitStep(s, size), i)
  {
    assert ServerOk(s, i) && LockingOk(s, i);
  }

  lemma StepKeepsOpen(s: Sys, ps: seq<Policy>, a: Step, i: nat)
    requires Inv(s) && CanStep(s, a) && |ps| == |s.mon.gs| && i < |ps| && OpenOk(s, i) && Disciplined(s, a)
    requires Inv(Advance(s, ps, a)) && |Advance(s, ps, a).mon.gs| == |s.mon.gs|
    ensures OpenOk(Advance(s, ps, a), i)
  {
    match a
    case Timer(trap) => TimerKeepsOpen(s, trap, i);
    case GuestFaults => FaultKeepsOpen(s, ps, i);
    case LoopTurn => TurnKeepsOpen(s, i);
    case Submit(size) => SubmitKeepsOpen(s, size, i);
    case GuestWrites(_, _) =>
    case ResumeDeferred =>
    case _ => TaskletKeepsOpen(s, ps, a, i);
  }

  /** A run from boot in which every client keeps to the protocol. */
  ghost predicate DisciplinedRun(ss: seq<Sys>, acts: seq<Step>, ps: seq<Policy>) {
    && IsRun(ss, acts, ps) && |ps| < CO_MAX && ss[0] == BootSys(|ps|)
    && forall k {:trigger acts[k]} :: 0 <= k < |acts| ==> Shape(ss[k]) && Disciplined(ss[k], acts[k])
  }

  lemma MoveKeepsAllOpen(s: Sys, ps: seq<Policy>, a: Step, s': Sys)
    requires Inv(s) && |ps| == |s.mon.gs| && Moves(s, ps, a, s') && AllOpenOk(s) && Disciplined(s, a)
    requires Inv(s') && |s'.mon.gs| == |ps|
    ensures AllOpenOk(s')
  {
    forall i | 0 <= i < |ps| ensures OpenOk(s', i) {
      assert OpenOk(s, i);
      StepKeepsOpen(s, ps, a, i);
    }
  }

  lemma {:induction false} AlwaysOpen(ss: seq<Sys>, acts: seq<Step>, ps: seq<Policy>, n: nat)
    requires DisciplinedRun(ss, acts, ps) && n <= |acts|
    ensures Inv(ss[n]) && AllOpenOk(ss[n]) && |ss[n].mon.gs| == |ps|
  {
    AlwaysInv(ss, acts, ps, n);
    if n > 0 {
      var m := n - 1;
      AlwaysOpen(ss, acts, ps, m);
      assert Moves(ss[m], ps, acts[m], ss[m + 1]);
      MoveKeepsAllOpen(ss[m], ps, acts[m], ss[m + 1]);
    } else {
      BootOpen(|ps|);
    }
  }

  ghost predicate OnItsWay(st: CoState) {
    st == Runnable || st == CoState.Running
  }

  /** A waiting guest's tasklet is runnable or running, or waits for the lock behind a runnable or
      running holder whose own guest is waiting too. */
  ghost predicate WillBeServed(s: Sys, i: int)
    requires Shape(s) && 0 <= i < |s.mon.gs|
  {
    || OnItsWay(s.co.state[i])
    || (&& i in s.lock.waiters && s.lock.holder.Some?
        && var h := s.lock.holder.value;
           OnItsWay(s.co.state[h]) && s.mon.gs[h].st == WaitingHsm)
  }

  lemma WaitingWillBeServed(s: Sys, i: nat)
    requires Inv(s) && AllOpenOk(s) && i < |s.mon.gs| && s.mon.gs[i].st == WaitingHsm
    ensures WillBeServed(s, i)
  {
    assert OpenOk(s, i) && GuestOk(s, i) && ServerOk(s, i) && LockingOk(s, i);
    if s.co.state[i] == Blocked {
      var h := s.lock.holder.value;
      assert ServerOk(s, h) && LockingOk(s, h);
    }
  }

  /** No lost wake-up: in every state of every disciplined run. */
  lemma NoLostWakeup(ss: seq<Sys>, acts: seq<Step>, ps: seq<Policy>, n: nat, i: nat)
    requires DisciplinedRun(ss, acts, ps) && n <= |acts|
    requires i < |ss[n].mon.gs| && ss[n].mon.gs[i].st == WaitingHsm
    ensures Inv(ss[n]) && WillBeServed(ss[n], i)
  {
    AlwaysOpen(ss, acts, ps, n);
    WaitingWillBeServed(ss[n], i);
  }

  /** While a request is open and no tasklet has the CPU, some guest is eligible. */
  lemma OpenRequestIsEligible(s: Sys, i: nat)
    requires Inv(s) && AllOpenOk(s) && s.co.current.None?
    requires i < |s.mon.gs| && s.mon.gs[i].st == WaitingHsm
    ensures exists k :: 0 <= k < |s.mon.gs| && Eligible(s.mon.gs[k], RunnableTasklets(s)[k])
  {
    WaitingWillBeServed(s, i);
    var k := if s.co.state[i] == Runnable then i else s.lock.holder.value;
    assert GuestOk(s, k);
    assert s.co.state[k] == Runnable;
    assert Eligible(s.mon.gs[k], RunnableTasklets(s)[k]);
  }

  lemma ObeyHalts(s: Sys, mv: (Mon, Verdict))
    requires Shape(s) && (mv.1.EnterTasklet? ==> mv.1.g < |s.co.state|)
    ensures Obey(s, mv).ctl == Halted <==> mv.1 == AllFaulted
  {}

  /** wt_platform_all_guests_faulted is not reached while any request is open. */
  lemma NeverHaltsOnOpenRequest(ss: seq<Sys>, acts: seq<Step>, ps: seq<Policy>, n: nat, i: nat)
    requires DisciplinedRun(ss, acts, ps) && n < |acts| && i < |ps|
    requires ss[n + 1].ctl == Halted && ss[n].ctl != Halted
    ensures i < |ss[n + 1].mon.gs| && ss[n + 1].mon.gs[i].st != WaitingHsm
  {
    AlwaysOpen(ss, acts, ps, n);
    AlwaysOpen(ss, acts, ps, n + 1);
    var s, a, s' := ss[n], acts[n], ss[n + 1];
    assert Moves(ss[n], ps, acts[n], ss[n + 1]);
    if s'.mon.gs[i].st == WaitingHsm {
      OpenRequestIsEligible(s', i);
      HaltsOnlyWhenNoneEligible(s, ps, a);
    }
  }

  lemma NoneLeft(m: Mon, hsm: seq<bool>, handler: bool)
    requires |hsm| == |m.gs| && m.cur < |m.gs| && ScheduleNext(m, hsm, handler).1 == AllFaulted
    ensures ScheduleNext(m, hsm, handler).0 == m
    ensures forall i :: 0 <= i < |m.gs| ==> !Eligible(m.gs[i], hsm[i])
  {
    DecisionsNeverPanic(m, hsm, handler);
  }

  lemma HaltsOnlyWhenNoneEligible(s: Sys, ps: seq<Policy>, a: Step)
    requires Inv(s) && CanStep(s, a) && |ps| == |s.mon.gs| && s.ctl != Halted
    requires Shape(Advance(s, ps, a)) && Advance(s, ps, a).ctl == Halted
    ensures var s' := Advance(s, ps, a);
            forall i :: 0 <= i < |s'.mon.gs| ==> !Eligible(s'.mon.gs[i], RunnableTasklets(s')[i])
  {
    var s', hsm := Advance(s, ps, a), RunnableTasklets(s);
    match a
    case Timer(trap) =>
      if trap == InGuest {
        TimerInGuestShape(s);
        ObeyHalts(TakenOff(s), ScheduleNext(TakenOff(s).mon, hsm, true));
        NoneLeft(TakenOff(s).mon, hsm, true);
        assert RunnableTasklets(s') == hsm;
      }
    case GuestFaults =>
      NoneLeft(Punish(s.mon, ps), hsm, true);
      assert RunnableTasklets(s') == hsm;
    case LoopTurn =>
      NoneLeft(s.mon, hsm, false);
      assert RunnableTasklets(s') == hsm;
    case _ =>
  }

  // ---------------------------------------------------------------- when a request is lost

  /** Guest i waits, off the CPU, for a tasklet that is blocked at its receive. */
  ghost predicate Stuck(s: Sys, i: nat) {
    && Shape(s) && i < |s.mon.gs|
    && s.mon.gs[i].st == WaitingHsm && !RunsCode(s, i)
    && s.srv[i].pc == AtRecv && s.co.state[i] == Blocked
  }

  /** Exactly when a receive loses the request of a waiting guest: when the counter equals the last
      one received, or the length does not fit. Otherwise the request is taken up. */
  lemma RecvLosesRequest(s: Sys)
    requires Inv(s) && At(s, AtRecv) && s.mon.gs[s.mon.cur].st == WaitingHsm
    ensures var i, v := s.mon.cur, s.srv[s.mon.cur];
            && (Stuck(RecvStep(s), i) <==> !Acceptable(v.notify, v.len, v.last))
            && (!Stuck(RecvStep(s), i) ==> RecvStep(s).srv[i].pc == Serving && RecvStep(s).srv[i].last == v.notify)
  {}

  lemma ObeyKeepsStuck(s: Sys, hsm: seq<bool>, handler: bool, i: nat)
    requires Inv(s) && Stuck(s, i) && |hsm| == |s.mon.gs| && !hsm[i]
    ensures var mv := ScheduleNext(s.mon, hsm, handler);
            && (mv.1.EnterTasklet? ==> mv.1.g < |s.co.state|)
            && (Shape(Obey(s, mv)) ==> Stuck(Obey(s, mv), i))
  {
    DecisionsNeverPanic(s.mon, hsm, handler);
  }

  lemma TimerKeepsStuck(s: Sys, trap: Trap, i: nat)
    requires Inv(s) && CanStep(s, Timer(trap)) && Stuck(s, i) && Inv(TimerStep(s, trap))
    ensures Stuck(TimerStep(s, trap), i)
  {
    if trap == InGuest { StuckUnderTimer(s, i); }
  }

  lemma StepKeepsStuck(s: Sys, ps: seq<Policy>, a: Step, i: nat)
    requires Inv(s) && CanStep(s, a) && |ps| == |s.mon.gs| && Stuck(s, i) && Inv(Advance(s, ps, a))
    ensures Stuck(Advance(s, ps, a), i)
  {
    assert LockingOk(s, i);
    match a
    case Timer(trap) => TimerKeepsStuck(s, trap, i);
    case GuestFaults => StuckUnderFault(s, ps, i);
    case LoopTurn => ObeyKeepsStuck(s, RunnableTasklets(s), false, i);
    case Releases => HandOffEffect(s.co, s.lock);
    case TaskletFaults => DeathEffect(s.co, s.lock, s.mon.cur, i);
    case _ =>
  }

  lemma StuckUnderTimer(s: Sys, i: nat)
    requires Inv(s) && s.ctl == InGuestCode && Stuck(s, i) && Inv(TimerStep(s, InGuest))
    ensures Stuck(TimerStep(s, InGuest), i)
  {
    TimerInGuestShape(s);
    assert GuestOk(s, i);
    SaveKeepsInv(s);
    BackoffKeepsInv(s.(mon := SaveRunning(s.mon), ctl := InLoop));
    ObeyKeepsStuck(TakenOff(s), RunnableTasklets(s), true, i);
  }

  lemma StuckUnderFault(s: Sys, ps: seq<Policy>, i: nat)
    requires Inv(s) && s.ctl == InGuestCode && |ps| == |s.mon.gs| && Stuck(s, i) && Inv(FaultStep(s, ps))
    ensures Stuck(FaultStep(s, ps), i)
  {
    var c, m := s.mon.cur, Punish(s.mon, ps);
    PunishKeepsInv(s, ps);
    var clear := m.gs[c].st == Restarting && ps[c].clears;
    var s2 := s.(mon := m, ctl := InLoop, srv := if clear then s.srv[c := Cleared(s.srv[c])] else s.srv);
    ObeyKeepsStuck(s2, RunnableTasklets(s), true, i);
    assert FaultStep(s, ps) == Obey(s2, ScheduleNext(m, RunnableTasklets(s), true));
  }

  lemma MoveKeepsStuck(s: Sys, ps: seq<Policy>, a: Step, s': Sys, i: nat)
    requires Inv(s) && |ps| == |s.mon.gs| && Moves(s, ps, a, s') && Stuck(s, i) && Inv(s')
    ensures Stuck(s', i)
  {
    StepKeepsStuck(s, ps, a, i);
  }

  lemma RunKeepsStuck(ss: seq<Sys>, acts: seq<Step>, ps: seq<Policy>, m: nat, i: nat)
    requires IsRun(ss, acts, ps) && m < |acts| && Stuck(ss[m], i)
    ensures Stuck(ss[m + 1], i)
  {
    AlwaysInv(ss, acts, ps, m);
    AlwaysInv(ss, acts, ps, m + 1);
    assert Moves(ss[m], ps, acts[m], ss[m + 1]);
    MoveKeepsStuck(ss[m], ps, acts[m], ss[m + 1], i);
  }

  /** A lost request is lost for good: nothing that can still happen wakes the tasklet or frees the
      guest. */
  lemma {:induction false} StuckForever(ss: seq<Sys>, acts: seq<Step>, ps: seq<Policy>, a: nat, b: nat, i: nat)
    requires IsRun(ss, acts, ps) && a <= b <= |acts| && Stuck(ss[a], i)
    ensures Stuck(ss[b], i)
    decreases b
  {
    if a < b {
      var m := b - 1;
      StuckForever(ss, acts, ps, a, m, i);
      RunKeepsStuck(ss, acts, ps, m, i);
    }
  }

  /** A restart with a cleared window takes the client's counter back to 0, but the server's last
      counter value survives. */
  lemma RestartKeepsLast(s: Sys, ps: seq<Policy>)
    requires Inv(s) && s.ctl == InGuestCode && |ps| == |s.mon.gs|
    requires Punish(s.mon, ps).gs[s.mon.cur].st == Restarting && ps[s.mon.cur].clears
    ensures var i, s' := s.mon.cur, FaultStep(s, ps);
            s'.srv[i].notify == 0 && s'.srv[i].last == s.srv[i].last
  {}

  /** The counter after k bumps from 0. */
  function Bumped(k: nat): u16 {
    if k == 0 then 0 else Inc16(Bumped(k - 1))
  }

  lemma {:induction false} BumpedIsMod(k: nat)
    ensures Bumped(k) == k % TWO16
  {
    if k > 0 { BumpedIsMod(k - 1); }
  }

  /** So a request that carries the k-th value counted from 0 is lost at its receive if and only if k
      reproduces the surviving value on 16 bits (or its length does not fit). */
  lemma NthRequestLost(s: Sys, k: nat)
    requires Inv(s) && At(s, AtRecv) && s.mon.gs[s.mon.cur].st == WaitingHsm
    requires s.srv[s.mon.cur].notify == Bumped(k)
    ensures Stuck(RecvStep(s), s.mon.cur) <==>
            k % TWO16 == s.srv[s.mon.cur].last || s.srv[s.mon.cur].len > SLOT_BYTES
  {
    BumpedIsMod(k);
    RecvLosesRequest(s);
  }

  // ---------------------------------------------------------------- one answer per request

  ghost predicate Receives(s: Sys, a: Step, i: nat) {
    Shape(s) && i < |s.srv| && a == Recv && s.ctl == InTaskletCode && s.mon.cur == i
      && Acceptable(s.srv[i].notify, s.srv[i].len, s.srv[i].last)
  }

  /** An answer to a received request: the regular response, or the fatal one of a fault. */
  ghost predicate Answers(s: Sys, a: Step, i: nat) {
    Shape(s) && i < |s.srv| && s.ctl == InTaskletCode && s.mon.cur == i
      && (a == Sends || (a == TaskletFaults && Busy(s.srv[i].pc)))
  }

  ghost function Received(ss: seq<Sys>, acts: seq<Step>, i: nat, n: nat): nat
    requires n <= |acts| <= |ss|
  {
    if n == 0 then 0 else Received(ss, acts, i, n - 1) + if Receives(ss[n - 1], acts[n - 1], i) then 1 else 0
  }

  ghost function Answered(ss: seq<Sys>, acts: seq<Step>, i: nat, n: nat): nat
    requires n <= |acts| <= |ss|
  {
    if n == 0 then 0 else Answered(ss, acts, i, n - 1) + if Answers(ss[n - 1], acts[n - 1], i) then 1 else 0
  }

  /** Only the tasklet's own steps move its pc. */
  lemma PcKept(s: Sys, ps: seq<Policy>, a: Step, i: nat)
    requires Inv(s) && CanStep(s, a) && |ps| == |s.mon.gs| && i < |ps|
    requires a.Timer? || a == GuestFaults || a == LoopTurn || a == ResumeDeferred || a.GuestWrites? || a.Submit?
    ensures var s' := Advance(s, ps, a); i < |s'.srv| && s'.srv[i].pc == s.srv[i].pc
  {}

  lemma BusyStep(s: Sys, ps: seq<Policy>, a: Step, i: nat)
    requires Inv(s) && CanStep(s, a) && |ps| == |s.mon.gs| && i < |ps|
    ensures var s' := Advance(s, ps, a);
            i < |s'.srv| && (Busy(s'.srv[i].pc) <==> if Receives(s, a, i) then true
                                                     else Busy(s.srv[i].pc) && !Answers(s, a, i))
    ensures Receives(s, a, i) ==> !Busy(s.srv[i].pc)
    ensures Answers(s, a, i) ==> Busy(s.srv[i].pc)
  {
    assert ServerOk(s, i);
    if a.Timer? || a == GuestFaults || a == LoopTurn || a == ResumeDeferred || a.GuestWrites? || a.Submit? {
      PcKept(s, ps, a, i);
    }
  }

  lemma MoveBusy(s: Sys, ps: seq<Policy>, a: Step, s': Sys, i: nat)
    requires Inv(s) && |ps| == |s.mon.gs| && Moves(s, ps, a, s') && i < |ps|
    ensures i < |s'.srv| && (Busy(s'.srv[i].pc) <==> if Receives(s, a, i) then true
                                                     else Busy(s.srv[i].pc) && !Answers(s, a, i))
    ensures Receives(s, a, i) ==> !Busy(s.srv[i].pc)
    ensures Answers(s, a, i) ==> Busy(s.srv[i].pc)
  {
    BusyStep(s, ps, a, i);
  }

  /** Conservation: on every run from boot, each request a service received has been answered exactly
      once, except for the one it is working on. */
  lemma {:induction false} OneAnswerPerRequest(ss: seq<Sys>, acts: seq<Step>, ps: seq<Policy>, n: nat, i: nat)
    requires IsRun(ss, acts, ps) && n <= |acts| && i < |ps| && |ps| < CO_MAX && ss[0] == BootSys(|ps|)
    ensures i < |ss[n].srv|
    ensures Received(ss, acts, i, n) == Answered(ss, acts, i, n) + if Busy(ss[n].srv[i].pc) then 1 else 0
  {
    if n > 0 {
      var m := n - 1;
      OneAnswerPerRequest(ss, acts, ps, m, i);
      AlwaysInv(ss, acts, ps, m);
      assert Moves(ss[m], ps, acts[m], ss[m + 1]);
      MoveBusy(ss[m], ps, acts[m], ss[m + 1], i);
    }
  }

  /** A waiting guest is released by a response, which bumps its response counter and makes it ready,
      or by its own fault; by nothing else. */
  lemma WaitingEndsByAnswer(s: Sys, ps: seq<Policy>, a: Step, i: nat)
    requires Inv(s) && CanStep(s, a) && |ps| == |s.mon.gs| && i < |ps| && s.mon.gs[i].st == WaitingHsm
    ensures var s' := Advance(s, ps, a);
            && i < |s'.mon.gs| && i < |s'.srv|
            && if (a == Sends || a == TaskletFaults) && s.mon.cur == i then
                 s'.mon.gs[i].st == Ready && s'.srv[i].resp == Inc16(s.srv[i].resp)
               else s'.mon.gs[i].st == WaitingHsm || (a == GuestFaults && RunsCode(s, i))
  {
    match a
    case Timer(trap) => TimerOnGuest(s, trap, i);
    case GuestFaults => FaultOnGuest(s, ps, i);
    case LoopTurn => TurnOnGuest(s, i);
    case _ =>
  }

  // ---------------------------------------------------------------- restart bound of the system

  /** Timer interrupts among the first n steps: the unbounded tick. */
  ghost function Ticks(acts: seq<Step>, n: nat): nat
    requires n <= |acts|
  {
    if n == 0 then 0 else Ticks(acts, n - 1) + if acts[n - 1].Timer? then 1 else 0
  }

  /** Guest i's life in a run. */
  ghost function Life(ss: seq<Sys>, acts: seq<Step>, i: nat): (ms: seq<Moment>)
    requires |ss| == |acts| + 1 && forall k :: 0 <= k < |ss| ==> i < |ss[k].mon.gs|
    ensures |ms| == |ss|
  {
    seq(|ss|, k requires 0 <= k < |ss| =>
      Moment(ss[k].mon.gs[i], Ticks(acts, k), k < |acts| && acts[k] == GuestFaults && ss[k].mon.cur == i))
  }

  lemma {:induction false} TickNext(n: nat)
    ensures Tick(n + 1) == if Tick(n) == 0xFFFF_FFFF then 0 else Tick(n) + 1
  {
    if n >= TWO32 { TickNext(n - TWO32); }
  }

  lemma CountersStep(s: Sys, ps: seq<Policy>, a: Step, i: nat)
    requires Inv(s) && CanStep(s, a) && |ps| == |s.mon.gs| && i < |ps|
    ensures var s' := Advance(s, ps, a);
            && |s'.mon.gs| == |s.mon.gs|
            && s'.mon.ticks == (if a.Timer? then TickOne(s.mon).ticks else s.mon.ticks)
            && SameCounters(if a == GuestFaults && s.mon.cur == i then RestartGuest(s.mon.gs[i], ps[i], s.mon.ticks)
                            else s.mon.gs[i], s'.mon.gs[i])
  {
    match a
    case Timer(trap) => TimerOnGuest(s, trap, i);
    case GuestFaults => FaultOnGuest(s, ps, i);
    case LoopTurn => TurnOnGuest(s, i);
    case _ =>
  }

  lemma MoveCounters(s: Sys, ps: seq<Policy>, a: Step, s': Sys, i: nat)
    requires Inv(s) && |ps| == |s.mon.gs| && Moves(s, ps, a, s') && i < |ps|
    ensures |s'.mon.gs| == |s.mon.gs| && s'.mon.ticks == (if a.Timer? then TickOne(s.mon).ticks else s.mon.ticks)
    ensures SameCounters(if a == GuestFaults && s.mon.cur == i then RestartGuest(s.mon.gs[i], ps[i], s.mon.ticks)
                         else s.mon.gs[i], s'.mon.gs[i])
  {
    CountersStep(s, ps, a, i);
  }

  lemma MoveTicks(s: Sys, ps: seq<Policy>, a: Step, s': Sys, t: nat)
    requires Inv(s) && |ps| == |s.mon.gs| && Moves(s, ps, a, s') && s.mon.ticks == Tick(t)
    ensures s'.mon.ticks == Tick(if a.Timer? then t + 1 else t)
  {
    MoveCounters(s, ps, a, s', 0);
    TickNext(t);
  }

  lemma {:induction false} TicksCount(ss: seq<Sys>, acts: seq<Step>, ps: seq<Policy>, n: nat)
    requires IsRun(ss, acts, ps) && n <= |acts| && ss[0].mon.ticks == 0
    ensures ss[n].mon.ticks == Tick(Ticks(acts, n))
  {
    if n > 0 {
      var m := n - 1;
      TicksCount(ss, acts, ps, m);
      AlwaysInv(ss, acts, ps, m);
      assert Moves(ss[m], ps, acts[m], ss[m + 1]);
      MoveTicks(ss[m], ps, acts[m], ss[m + 1], Ticks(acts, m));
    }
  }

  ghost predicate AllSized(ss: seq<Sys>, i: nat) {
    forall k :: 0 <= k < |ss| ==> i < |ss[k].mon.gs|
  }

  lemma LifeStep(ss: seq<Sys>, acts: seq<Step>, ps: seq<Policy>, i: nat, k: nat)
    requires IsRun(ss, acts, ps) && i < |ps| < CO_MAX && ss[0] == BootSys(|ps|) && k < |acts|
    ensures i < |ss[k].mon.gs| && i < |ss[k + 1].mon.gs|
    ensures Follows(Moment(ss[k].mon.gs[i], Ticks(acts, k), acts[k] == GuestFaults && ss[k].mon.cur == i), ps[i],
                    Moment(ss[k + 1].mon.gs[i], Ticks(acts, k + 1), false))
  {
    AlwaysInv(ss, acts, ps, k);
    TicksCount(ss, acts, ps, k);
    assert Moves(ss[k], ps, acts[k], ss[k + 1]);
    MoveCounters(ss[k], ps, acts[k], ss[k + 1], i);
  }

  /** Every guest's life in a run of the system satisfies the hypotheses of the restart bound. */
  lemma LifeIsLife(ss: seq<Sys>, acts: seq<Step>, ps: seq<Policy>, i: nat)
    requires IsRun(ss, acts, ps) && i < |ps| < CO_MAX && ss[0] == BootSys(|ps|)
    ensures AllSized(ss, i) && IsLife(Life(ss, acts, i), ps[i])
  {
    forall k | 0 <= k < |ss| ensures i < |ss[k].mon.gs| { AlwaysInv(ss, acts, ps, k); }
    var ms := Life(ss, acts, i);
    forall k | 0 <= k < |ms| - 1 ensures Follows(ms[k], ps[i], ms[k + 1]) { LifeStep(ss, acts, ps, i, k); }
  }

  /** The restart bound over whole runs of the system: any W consecutive timer ticks contain at most
      2L - 1 restarts of a guest with limit L and window W; with W = 0 there are at most L, ever. */
  lemma RestartsAreBounded(ss: seq<Sys>, acts: seq<Step>, ps: seq<Policy>, i: nat, a: nat, b: nat)
    requires IsRun(ss, acts, ps) && i < |ps| < CO_MAX && ss[0] == BootSys(|ps|)
    requires a <= b <= |acts| && ps[i].limit > 0
    ensures AllSized(ss, i)
    ensures ps[i].window > 0 && Ticks(acts, b) < Ticks(acts, a) + ps[i].window ==>
              Granted(Life(ss, acts, i), ps[i], a, b) <= 2 * ps[i].limit - 1
    ensures ps[i].window == 0 ==> Granted(Life(ss, acts, i), ps[i], 0, b) <= ps[i].limit
  {
    LifeIsLife(ss, acts, ps, i);
    var ms := Life(ss, acts, i);
    if ps[i].window == 0 { RestartsEver(ms, ps[i], b); }
    else if Ticks(acts, b) < Ticks(acts, a) + ps[i].window { RestartBound(ms, ps[i], a, b); }
  }

  /** The rule over whole runs of the system: the guest that faults in step k is given up if and only if
      there is a limit, as many restarts were granted to it since its window in force was opened, and
      that has not run out; otherwise it is being restarted with the policy's delay. */
  lemma RestartRuleOnRuns(ss: seq<Sys>, acts: seq<Step>, ps: seq<Policy>, i: nat, k: nat)
    requires IsRun(ss, acts, ps) && i < |ps| < CO_MAX && ss[0] == BootSys(|ps|)
    requires k < |acts| && acts[k] == GuestFaults && ss[k].mon.cur == i
    ensures AllSized(ss, i) && IsLife(Life(ss, acts, i), ps[i])
    ensures var a, g := AccountAt(Life(ss, acts, i), ps[i], k), ss[k + 1].mon.gs[i];
            && a.since <= Ticks(acts, k)
            && (g.st == GuestState.Faulted <==>
                  ps[i].limit > 0 && a.granted == ps[i].limit && !Lapsed(a, ps[i], Ticks(acts, k)))
            && (g.st != GuestState.Faulted ==> g.st == Restarting && g.delay == ps[i].delay)
  {
    LifeIsLife(ss, acts, ps, i);
    RestartRule(Life(ss, acts, i), ps[i], k);
    AlwaysInv(ss, acts, ps, k);
    TicksCount(ss, acts, ps, k);
    assert Moves(ss[k], ps, acts[k], ss[k + 1]);
    DecisionOnGuest(ss[k], Punish(ss[k].mon, ps), RunnableTasklets(ss[k]), true, i);
  }

  // ---------------------------------------------------------------- a lost request

  const TWO_POLICIES := [Policy(3, 64, 1, true), Policy(3, 64, 1, true)]
  const IDLE := Server(true, 0, 0, 0, 0, AtRecv)

  /** Two guests, of which only guest 0 ever uses its service. */
  ghost function Duo(m: Mon, v: Server, st: CoState, q: seq<nat>, c: Option<nat>, ctl: Ctl): Sys {
    Sys(m, [v, IDLE], Sched([st, Blocked], q, c, {}), Lock(None, []), ctl)
  }

  lemma DuoFind(gs: seq<Guest>, hsm: seq<bool>, start: nat)
    requires |gs| == |hsm| == 2 && start < 2
    ensures FindFrom(gs, hsm, start, 0) ==
      var o := 1 - start;
      if Eligible(gs[start], hsm[start]) then start else if Eligible(gs[o], hsm[o]) then o else 2
  {
    assert Candidate(gs, hsm, start, 0) == Eligible(gs[start], hsm[start]);
    assert Candidate(gs, hsm, start, 1) == Eligible(gs[1 - start], hsm[1 - start]);
    assert FindFrom(gs, hsm, start, 2) == 2;
    assert FindFrom(gs, hsm, start, 1) == if Candidate(gs, hsm, start, 1) then 1 - start else 2;
  }

  /** What happens while guest 0 asks for service. */
  ghost function AskAct(k: nat): Step {
    if k == 0 then GuestWrites(1, 8)
    else if k == 1 then Submit(8)
    else if k == 2 || k == 3 then Timer(InGuest)
    else ResumeDeferred
  }

  /** The run: guest 0 is served once, faults, is restarted, and asks again with its first counter
      value. */
  ghost function LostAct(k: nat): Step {
    if k < 5 then AskAct(k)
    else if k == 5 || k == 7 || k == 17 then Recv
    else if k == 6 then Sends
    else if k == 8 then LoopTurn
    else if k == 10 then GuestFaults
    else if k < 12 then Timer(InGuest)
    else AskAct(k - 12)
  }

  ghost function Pair(a: GuestState, n: u32, f: u32, b: GuestState, cur: nat, rep: Rep, t: u32): Mon {
    Mon([Guest(a, 0, n, f), Guest(b, 0, 0, 0)], cur, rep, t)
  }

  /** Guest 0 asks for service with counter value 1; n, f, t and v are what its past left behind. */
  ghost function Asking(n: u32, f: u32, t: u32, v: Server, k: nat): Sys
    requires k <= 5 && t < 1000
  {
    var v' := v.(notify := 1, len := 8);
    if k == 0 then Duo(Pair(GuestState.Running, n, f, Ready, 0, NonSecure, t), v, Blocked, [], None, InGuestCode)
    else if k == 1 then Duo(Pair(GuestState.Running, n, f, Ready, 0, NonSecure, t), v', Blocked, [], None, InGuestCode)
    else if k == 2 then Duo(Pair(WaitingHsm, n, f, Ready, 0, NonSecure, t), v', Runnable, [0], None, InGuestCode)
    else if k == 3 then Duo(Pair(WaitingHsm, n, f, GuestState.Running, 1, NonSecure, t + 1), v', Runnable, [0], None, InGuestCode)
    else if k == 4 then Duo(Pair(WaitingHsm, n, f, Ready, 1, NonSecure, t + 2), v', Runnable, [0], None, Deferred(0))
    else Duo(Pair(WaitingHsm, n, f, Ready, 0, Hsm, t + 2), v', CoState.Running, [], Some(0), InTaskletCode)
  }

  /** One timer interrupt in guest code, for two guests. */
  lemma DuoTimer(s: Sys)
    requires Shape(s) && s.ctl == InGuestCode && |s.mon.gs| == 2
    ensures TimerStep(s, InGuest) == Obey(TakenOff(s), ScheduleNext(TakenOff(s).mon, RunnableTasklets(s), true))
    ensures var gs, start := TakenOff(s).mon.gs, Cyc(s.mon.cur + 1, 2);
            FindFrom(gs, RunnableTasklets(s), start, 0) ==
              if Eligible(gs[start], s.co.state[start] == Runnable) then start
              else if Eligible(gs[1 - start], s.co.state[1 - start] == Runnable) then 1 - start else 2
  {
    TimerInGuestShape(s);
    DuoFind(TakenOff(s).mon.gs, RunnableTasklets(s), Cyc(s.mon.cur + 1, 2));
  }

  /** The guests' entries when the timer takes the CPU from one of two guests. */
  lemma DuoTaken(s: Sys)
    requires Shape(s) && s.ctl == InGuestCode && |s.mon.gs| == 2 && s.mon.rep == NonSecure
    requires s.mon.gs[s.mon.cur].delay == 0 && s.mon.gs[1 - s.mon.cur].delay <= 1
    ensures var c, g, o := s.mon.cur, s.mon.gs[s.mon.cur], s.mon.gs[1 - s.mon.cur];
            var g', o' := if g.st == GuestState.Running then g.(st := Ready) else g, BackoffGuest(o);
            TakenOff(s).mon.gs == if c == 0 then [g', o'] else [o', g']
  {
    var c, g, o := s.mon.cur, s.mon.gs[s.mon.cur], s.mon.gs[1 - s.mon.cur];
    var gs := TakenOff(s).mon.gs;
    assert |gs| == 2 && gs[c] == if g.st == GuestState.Running then g.(st := Ready) else g;
    assert gs[1 - c] == BackoffGuest(o);
  }

  lemma AskWrites(n: u32, f: u32, t: u32, v: Server)
    requires t < 1000 && v.ready && v.pc == AtRecv
    ensures Moves(Asking(n, f, t, v, 0), TWO_POLICIES, GuestWrites(1, 8), Asking(n, f, t, v, 1))
  {}

  lemma AskSubmits(n: u32, f: u32, t: u32, v: Server)
    requires t < 1000 && v.ready && v.pc == AtRecv
    ensures Moves(Asking(n, f, t, v, 1), TWO_POLICIES, Submit(8), Asking(n, f, t, v, 2))
  {}

  lemma AskLeaves(n: u32, f: u32, t: u32, v: Server)
    requires t < 1000 && v.ready && v.pc == AtRecv
    ensures Moves(Asking(n, f, t, v, 2), TWO_POLICIES, Timer(InGuest), Asking(n, f, t, v, 3))
  {
    var s := Asking(n, f, t, v, 2);
    DuoTimer(s);
    DuoTaken(s);
    var m := Pair(WaitingHsm, n, f, Ready, 0, NonSecure, t + 1);
    assert TakenOff(s).mon == m;
    assert ScheduleNext(m, RunnableTasklets(s), true) == (DispatchGuest(m, 1), EnterGuest(1));
  }

  lemma AskDefers(n: u32, f: u32, t: u32, v: Server)
    requires t < 1000 && v.ready && v.pc == AtRecv
    ensures Moves(Asking(n, f, t, v, 3), TWO_POLICIES, Timer(InGuest), Asking(n, f, t, v, 4))
  {
    var s := Asking(n, f, t, v, 3);
    DuoTimer(s);
    DuoTaken(s);
    var m := Pair(WaitingHsm, n, f, Ready, 1, NonSecure, t + 2);
    assert TakenOff(s).mon == m;
    assert ScheduleNext(m, RunnableTasklets(s), true) == (m, Defer(0));
  }

  lemma AskResumes(n: u32, f: u32, t: u32, v: Server)
    requires t < 1000 && v.ready && v.pc == AtRecv
    ensures Moves(Asking(n, f, t, v, 4), TWO_POLICIES, ResumeDeferred, Asking(n, f, t, v, 5))
  {}

  lemma AskingStep(n: u32, f: u32, t: u32, v: Server, k: nat)
    requires k < 5 && t < 1000 && v.ready && v.pc == AtRecv
    ensures Moves(Asking(n, f, t, v, k), TWO_POLICIES, AskAct(k), Asking(n, f, t, v, k + 1))
  {
    if k == 0 { AskWrites(n, f, t, v); }
    else if k == 1 { AskSubmits(n, f, t, v); }
    else if k == 2 { AskLeaves(n, f, t, v); }
    else if k == 3 { AskDefers(n, f, t, v); }
    else { AskResumes(n, f, t, v); }
  }

  /** The states of the run. */
  ghost function LostTrace(k: nat): Sys
    requires k <= 18
  {
    if k <= 5 then Asking(0, 0, 0, IDLE, k)
    else if k == 6 then
      Duo(Pair(WaitingHsm, 0, 0, Ready, 0, Hsm, 2), Server(true, 1, 8, 1, 0, Serving), CoState.Running, [], Some(0), InTaskletCode)
    else if k == 7 then
      Duo(Pair(Ready, 0, 0, Ready, 0, Hsm, 2), Server(true, 1, 8, 1, 1, AtRecv), CoState.Running, [], Some(0), InTaskletCode)
    else if k == 8 then
      Duo(Pair(Ready, 0, 0, Ready, 0, Hsm, 2), Server(true, 1, 8, 1, 1, AtRecv), Blocked, [], None, InLoop)
    else if k == 9 then
      Duo(Pair(Ready, 0, 0, GuestState.Running, 1, NonSecure, 2), Server(true, 1, 8, 1, 1, AtRecv), Blocked, [], None, InGuestCode)
    else if k == 10 then
      Duo(Pair(GuestState.Running, 0, 0, Ready, 0, NonSecure, 3), Server(true, 1, 8, 1, 1, AtRecv), Blocked, [], None, InGuestCode)
    else if k == 11 then
      Duo(Mon([Guest(Restarting, 1, 1, 3), Guest(GuestState.Running, 0, 0, 0)], 1, NonSecure, 3),
          Server(true, 0, 0, 1, 0, AtRecv), Blocked, [], None, InGuestCode)
    else if k <= 17 then Asking(1, 3, 4, Server(true, 0, 0, 1, 0, AtRecv), k - 12)
    else Duo(Pair(WaitingHsm, 1, 3, Ready, 0, Hsm, 6), Server(true, 1, 8, 1, 0, AtRecv), Blocked, [], None, InLoop)
  }

  lemma ServedReceives()
    ensures Moves(LostTrace(5), TWO_POLICIES, Recv, LostTrace(6))
  {}

  lemma ServedSends()
    ensures Moves(LostTrace(6), TWO_POLICIES, Sends, LostTrace(7))
  {}

  lemma ServedBlocks()
    ensures Moves(LostTrace(7), TWO_POLICIES, Recv, LostTrace(8))
  {}

  lemma ReturnStep()
    ensures Moves(LostTrace(8), TWO_POLICIES, LoopTurn, LostTrace(9))
  {
    var s := LostTrace(8);
    DuoFind(s.mon.gs, RunnableTasklets(s), 1);
  }

  lemma RestartStep()
    ensures Moves(LostTrace(10), TWO_POLICIES, GuestFaults, LostTrace(11))
  {
    var s := LostTrace(10);
    DuoFind(Punish(s.mon, TWO_POLICIES).gs, RunnableTasklets(s), 1);
    assert s.srv[0 := Cleared(s.srv[0])] == LostTrace(11).srv;
    assert FaultStep(s, TWO_POLICIES).mon.gs == LostTrace(11).mon.gs;
  }

  /** The timer takes the CPU from guest 1, and guest 0 is ready. */
  lemma DuoBack(s: Sys, m: Mon)
    requires Shape(s) && s.ctl == InGuestCode && |s.mon.gs| == 2 && s.mon.cur == 1
    requires TakenOff(s).mon == m && m.gs[0].st == Ready && m.gs[0].delay == 0
    ensures TimerStep(s, InGuest) == s.(mon := DispatchGuest(m, 0), ctl := InGuestCode)
  {
    DuoTimer(s);
    assert ScheduleNext(m, RunnableTasklets(s), true) == (DispatchGuest(m, 0), EnterGuest(0));
  }

  lemma BackToGuest()
    ensures Moves(LostTrace(9), TWO_POLICIES, Timer(InGuest), LostTrace(10))
  {
    var s := LostTrace(9);
    DuoTaken(s);
    DuoBack(s, Pair(Ready, 0, 0, Ready, 1, NonSecure, 3));
  }

  lemma BackAfterRestart()
    ensures Moves(LostTrace(11), TWO_POLICIES, Timer(InGuest), LostTrace(12))
  {
    var s := LostTrace(11);
    DuoTaken(s);
    DuoBack(s, Pair(Ready, 1, 3, Ready, 1, NonSecure, 4));
  }

  lemma AskingAgain(k: nat)
    requires 12 <= k < 17
    ensures Moves(LostTrace(k), TWO_POLICIES, LostAct(k), LostTrace(k + 1))
  {
    var v := Server(true, 0, 0, 1, 0, AtRecv);
    AskingStep(1, 3, 4, v, k - 12);
    assert LostTrace(k) == Asking(1, 3, 4, v, k - 12);
    assert LostTrace(k + 1) == Asking(1, 3, 4, v, k - 11);
  }

  lemma LastStep()
    ensures Moves(LostTrace(17), TWO_POLICIES, Recv, LostTrace(18))
  {}

  lemma FirstAsking(k: nat)
    requires k < 5
    ensures Moves(LostTrace(k), TWO_POLICIES, LostAct(k), LostTrace(k + 1))
  {
    AskingStep(0, 0, 0, IDLE, k);
    assert LostTrace(k) == Asking(0, 0, 0, IDLE, k);
    assert LostTrace(k + 1) == Asking(0, 0, 0, IDLE, k + 1);
  }

  ghost predicate TraceMoves(k: nat)
    requires k < 18
  {
    Moves(LostTrace(k), TWO_POLICIES, LostAct(k), LostTrace(k + 1))
  }

  lemma FirstLife(k: nat)
    requires 5 <= k < 9
    ensures TraceMoves(k)
  {
    if k == 5 { ServedReceives(); } else if k == 6 { ServedSends(); } else if k == 7 { ServedBlocks(); } else { ReturnStep(); }
  }

  lemma LostStep(k: nat)
    requires k < 18
    ensures TraceMoves(k)
  {
    if k < 5 { FirstAsking(k); }
    else if k < 9 { FirstLife(k); }
    else if k == 9 { BackToGuest(); }
    else if k == 11 { BackAfterRestart(); }
    else if k == 10 { RestartStep(); }
    else if k < 17 { AskingAgain(k); }
    else { LastStep(); }
  }

  ghost function LostStates(): (ss: seq<Sys>)
    ensures |ss| == 19 && forall k :: 0 <= k < 19 ==> ss[k] == LostTrace(k)
  {
    seq(19, k requires 0 <= k < 19 => LostTrace(k))
  }

  ghost function LostActs(): (acts: seq<Step>)
    ensures |acts| == 18 && forall k :: 0 <= k < 18 ==> acts[k] == LostAct(k)
  {
    seq(18, (k: nat) => LostAct(k))
  }

  /** A client that counts its requests from 1 after every start, as the cleared header invites it to,
      can lose a request for ever: a concrete run from boot with the repository's restart policy. */
  lemma RestartLosesRequest()
    ensures IsRun(LostStates(), LostActs(), TWO_POLICIES) && LostStates()[0] == BootSys(2)
    ensures Stuck(LostStates()[18], 0)
  {
    var ss, acts := LostStates(), LostActs();
    BootInv(2);
    assert ss[0].mon.gs == BootSys(2).mon.gs;
    assert ss[0] == BootSys(2);
    forall k | 0 <= k < 18 ensures Moves(ss[k], TWO_POLICIES, acts[k], ss[k + 1]) { LostStep(k); }
  }
}
