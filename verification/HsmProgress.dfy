/** How long a waiting guest waits for its tasklet to be entered, over all runs of the HSM system: fair
    scheduling of guests and the lock's first-come-first-served hand-off together. */
module HsmProgress {
  import opened Base
  import opened Coroutine
  import opened Monitor
  import opened HsmSystem
  import opened HsmRuns
  import opened HsmScheduling
  import HsmSteps

  // ---------------------------------------------------------------- a waiting guest with a runnable tasklet

  /** Guest i waits for its tasklet, and that is runnable. */
  ghost predicate WaitsReady(s: Sys, i: nat) {
    Shape(s) && i < |s.mon.gs| && s.mon.gs[i].st == WaitingHsm && s.co.state[i] == Runnable
  }

  ghost predicate OnCpu(s: Sys, i: nat) {
    s.co.current == Some(i)
  }

  /** Guest i itself faults. */
  ghost predicate OwnFault(s: Sys, a: Step, i: nat) {
    a == GuestFaults && s.mon.cur == i
  }

  /** Neither blocked nor dead afterwards. */
  ghost predicate StaysAwake(s': Sys, i: nat) {
    i < |s'.co.state| && (s'.co.state[i] == Runnable || s'.co.state[i] == CoState.Running)
  }

  lemma DecisionKeepsAwake(s: Sys, ps: seq<Policy>, a: Step, i: nat)
    requires Inv(s) && CanStep(s, a) && |ps| == |s.mon.gs| && WaitsReady(s, i) && (a == GuestFaults || a == LoopTurn || a.Timer?)
    ensures StaysAwake(Advance(s, ps, a), i)
  {
    match a
    case Timer(trap) => TimerOnTasklet(s, trap, i);
    case GuestFaults =>
      var c, m := s.mon.cur, Punish(s.mon, ps);
      var s1 := if m.gs[c].st == Restarting && ps[c].clears then s.(srv := s.srv[c := Cleared(s.srv[c])]) else s;
      DecisionOnTasklet(s1, m, RunnableTasklets(s), true, i);
    case LoopTurn => DecisionOnTasklet(s, s.mon, RunnableTasklets(s), false, i);
  }

  lemma StepKeepsAwake(s: Sys, ps: seq<Policy>, a: Step, i: nat)
    requires Inv(s) && CanStep(s, a) && |ps| == |s.mon.gs| && WaitsReady(s, i)
    ensures StaysAwake(Advance(s, ps, a), i)
  {
    match a
    case Timer(_) => DecisionKeepsAwake(s, ps, a, i);
    case GuestFaults => DecisionKeepsAwake(s, ps, a, i);
    case LoopTurn => DecisionKeepsAwake(s, ps, a, i);
    case Releases => HandOffEffect(s.co, s.lock);
    case TaskletFaults => DeathEffect(s.co, s.lock, s.mon.cur, i);
    case _ =>
  }

  /** One step on a waiting guest with a runnable tasklet: the tasklet is entered, or nothing changes for
      them, unless the guest itself faults. */
  lemma StepOnWaiting(s: Sys, ps: seq<Policy>, a: Step, i: nat)
    requires Inv(s) && CanStep(s, a) && |ps| == |s.mon.gs| && WaitsReady(s, i) && !OwnFault(s, a, i)
    requires Inv(Advance(s, ps, a))
    ensures OnCpu(Advance(s, ps, a), i) || WaitsReady(Advance(s, ps, a), i)
  {
    StepKeepsAwake(s, ps, a, i);
    WaitingEndsByAnswer(s, ps, a, i);
  }

  /** Such a guest is eligible at every decision. */
  lemma WaitingIsEligible(s: Sys, ps: seq<Policy>, a: Step, i: nat)
    requires Inv(s) && |ps| == |s.mon.gs| && WaitsReady(s, i) && !OwnFault(s, a, i)
    requires CanStep(s, a)
    ensures EligibleAt(s, ps, a, i)
  {
    assert GuestOk(s, i);
  }

  /** Whom a decision enters as a guest was not waiting. */
  lemma EnteredWasNotWaiting(s: Sys, m: Mon, hsm: seq<bool>, handler: bool, i: nat)
    requires Shape(s) && |hsm| == |m.gs| == |s.co.state| && m.cur < |m.gs| && i < |hsm|
    requires m.gs[i].st == WaitingHsm
    ensures var mv := ScheduleNext(m, hsm, handler);
            (mv.1.EnterTasklet? ==> mv.1.g < |s.co.state|) && !RunsCode(Obey(s.(ctl := InLoop), mv), i)
  {
    DecisionsNeverPanic(m, hsm, handler);
  }

  lemma ChosenIsNotGuestCode(s: Sys, ps: seq<Policy>, a: Step, i: nat)
    requires Inv(s) && CanStep(s, a) && |ps| == |s.mon.gs| && WaitsReady(s, i) && !OwnFault(s, a, i) && HsmScheduling.Decides(a)
    ensures !RunsCode(Advance(s, ps, a), i)
  {
    var hsm := RunnableTasklets(s);
    match a
    case Timer(_) =>
      TimerInGuestShape(s);
      TakenOffGuest(s, i);
      EnteredWasNotWaiting(TakenOff(s), TakenOff(s).mon, hsm, true, i);
    case GuestFaults =>
      DecisionsNeverPanic(Punish(s.mon, ps), hsm, true);
    case LoopTurn => EnteredWasNotWaiting(s, s.mon, hsm, false, i);
  }

  /** No step gives it the CPU while it waits. */
  lemma StepKeepsOff(s: Sys, ps: seq<Policy>, a: Step, i: nat)
    requires Inv(s) && CanStep(s, a) && |ps| == |s.mon.gs| && WaitsReady(s, i) && !OwnFault(s, a, i) && !RunsCode(s, i)
    ensures !RunsCode(Advance(s, ps, a), i)
  {
    if HsmScheduling.Decides(a) { ChosenIsNotGuestCode(s, ps, a, i); }
    else if a == ResumeDeferred { EnterTaskletKeepsInv(s, s.ctl.g); }
  }

  /** A decision that chooses it enters its tasklet, or leaves that to Thread mode. */
  lemma ChosenIsEntered(s: Sys, ps: seq<Policy>, a: Step, i: nat)
    requires Inv(s) && CanStep(s, a) && |ps| == |s.mon.gs| && WaitsReady(s, i) && !OwnFault(s, a, i) && HsmScheduling.Decides(a)
    requires var s' := Advance(s, ps, a);
             Inv(s') && s'.ctl != Halted && s'.ctl != InLoop && Chosen(s') == i
    ensures Advance(s, ps, a).ctl == Deferred(i) || OnCpu(Advance(s, ps, a), i)
  {
    ChosenIsNotGuestCode(s, ps, a, i);
  }

  /** A decision never ends in the loop: who is to be resumed is resumed. */
  lemma DecisionLeavesLoop(s: Sys, ps: seq<Policy>, a: Step)
    requires Inv(s) && CanStep(s, a) && |ps| == |s.mon.gs| && HsmScheduling.Decides(a)
    ensures Advance(s, ps, a).ctl != InLoop
  {
    var hsm := RunnableTasklets(s);
    match a
    case Timer(_) =>
      TimerInGuestShape(s);
      DecisionsNeverPanic(TakenOff(s).mon, hsm, true);
    case GuestFaults => DecisionsNeverPanic(Punish(s.mon, ps), hsm, true);
    case LoopTurn => DecisionsNeverPanic(s.mon, hsm, false);
  }

  /** A deferred tasklet is resumed before any decision. */
  lemma DeferredStep(s: Sys, ps: seq<Policy>, a: Step, i: nat)
    requires Inv(s) && CanStep(s, a) && |ps| == |s.mon.gs| && s.ctl == Deferred(i)
    ensures !HsmScheduling.Decides(a)
    ensures OnCpu(Advance(s, ps, a), i) || Advance(s, ps, a).ctl == Deferred(i)
  {
    if a == ResumeDeferred { EnterTaskletKeepsInv(s, i); }
  }

  // ---------------------------------------------------------------- runs

  /** Tasklet i is entered after step a and by step b. */
  ghost predicate EnteredIn(ss: seq<Sys>, a: nat, b: nat, i: nat)
    requires b < |ss|
  {
    exists k {:trigger OnCpu(ss[k], i)} :: a < k <= b && OnCpu(ss[k], i)
  }

  ghost predicate NoOwnFault(ss: seq<Sys>, acts: seq<Step>, a: nat, b: nat, i: nat)
    requires b <= |acts| <= |ss|
  {
    forall k {:trigger OwnFault(ss[k], acts[k], i)} :: a <= k < b ==> !OwnFault(ss[k], acts[k], i)
  }

  lemma RunStep(ss: seq<Sys>, acts: seq<Step>, ps: seq<Policy>, k: nat)
    requires IsRun(ss, acts, ps) && k < |acts|
    ensures Inv(ss[k]) && Inv(ss[k + 1]) && |ss[k].mon.gs| == |ss[k + 1].mon.gs| == |ps|
    ensures CanStep(ss[k], acts[k]) && ss[k + 1] == Advance(ss[k], ps, acts[k])
  {
    AlwaysInv(ss, acts, ps, k);
    AlwaysInv(ss, acts, ps, k + 1);
    assert Moves(ss[k], ps, acts[k], ss[k + 1]);
  }

  lemma RunOnWaiting(ss: seq<Sys>, acts: seq<Step>, ps: seq<Policy>, k: nat, i: nat)
    requires IsRun(ss, acts, ps) && k < |acts| && WaitsReady(ss[k], i) && !OwnFault(ss[k], acts[k], i)
    ensures OnCpu(ss[k + 1], i) || WaitsReady(ss[k + 1], i)
    ensures EligibleAt(ss[k], ps, acts[k], i)
    ensures !RunsCode(ss[k], i) ==> !RunsCode(ss[k + 1], i)
  {
    RunStep(ss, acts, ps, k);
    StepOnWaiting(ss[k], ps, acts[k], i);
    WaitingIsEligible(ss[k], ps, acts[k], i);
    if !RunsCode(ss[k], i) { StepKeepsOff(ss[k], ps, acts[k], i); }
  }

  lemma RunOnDeferred(ss: seq<Sys>, acts: seq<Step>, ps: seq<Policy>, k: nat, i: nat)
    requires IsRun(ss, acts, ps) && k < |acts| && ss[k].ctl == Deferred(i)
    ensures !HsmScheduling.Decides(acts[k]) && (OnCpu(ss[k + 1], i) || ss[k + 1].ctl == Deferred(i))
  {
    RunStep(ss, acts, ps, k);
    DeferredStep(ss[k], ps, acts[k], i);
  }

  lemma RunOnChosen(ss: seq<Sys>, acts: seq<Step>, ps: seq<Policy>, k: nat, i: nat)
    requires IsRun(ss, acts, ps) && k < |acts| && WaitsReady(ss[k], i) && !OwnFault(ss[k], acts[k], i)
    requires ChoosesAt(ss, acts, k, i)
    ensures ss[k + 1].ctl == Deferred(i) || OnCpu(ss[k + 1], i)
  {
    RunStep(ss, acts, ps, k);
    DecisionLeavesLoop(ss[k], ps, acts[k]);
    ChosenIsEntered(ss[k], ps, acts[k], i);
  }

  lemma {:induction false} StaysWaiting(ss: seq<Sys>, acts: seq<Step>, ps: seq<Policy>, a: nat, b: nat, i: nat)
    requires IsRun(ss, acts, ps) && a <= b <= |acts| && WaitsReady(ss[a], i)
    requires NoOwnFault(ss, acts, a, b, i) && !EnteredIn(ss, a, b, i)
    ensures WaitsReady(ss[b], i)
    decreases b
  {
    if a < b {
      var m := b - 1;
      assert !EnteredIn(ss, a, m, i);
      StaysWaiting(ss, acts, ps, a, m, i);
      assert !OwnFault(ss[m], acts[m], i) && !OnCpu(ss[m + 1], i);
      RunOnWaiting(ss, acts, ps, m, i);
    }
  }

  /** A guest that is off the CPU stays off it while it waits, so it cannot fault. */
  lemma {:induction false} OffCpuCannotFault(ss: seq<Sys>, acts: seq<Step>, ps: seq<Policy>, a: nat, b: nat, i: nat)
    requires IsRun(ss, acts, ps) && a <= b <= |acts| && WaitsReady(ss[a], i) && !RunsCode(ss[a], i)
    requires !EnteredIn(ss, a, b, i)
    ensures NoOwnFault(ss, acts, a, b, i) && WaitsReady(ss[b], i) && !RunsCode(ss[b], i)
    decreases b
  {
    if a < b {
      var m := b - 1;
      assert !EnteredIn(ss, a, m, i);
      OffCpuCannotFault(ss, acts, ps, a, m, i);
      NotOwnFault(ss, acts, ps, m, i);
      assert !OnCpu(ss[m + 1], i);
      RunOnWaiting(ss, acts, ps, m, i);
    }
  }

  lemma NotOwnFault(ss: seq<Sys>, acts: seq<Step>, ps: seq<Policy>, k: nat, i: nat)
    requires IsRun(ss, acts, ps) && k < |acts| && !RunsCode(ss[k], i)
    ensures !OwnFault(ss[k], acts[k], i)
  {
    RunStep(ss, acts, ps, k);
  }

  lemma EligibleWhileWaiting(ss: seq<Sys>, acts: seq<Step>, ps: seq<Policy>, a: nat, b: nat, i: nat)
    requires IsRun(ss, acts, ps) && a <= b <= |acts| && WaitsReady(ss[a], i)
    requires NoOwnFault(ss, acts, a, b, i) && !EnteredIn(ss, a, b, i)
    ensures EligibleThroughout(ss, acts, ps, a, b, i)
  {
    forall k | a <= k < b ensures EligibleAt(ss[k], ps, acts[k], i) {
      assert !EnteredIn(ss, a, k, i);
      StaysWaiting(ss, acts, ps, a, k, i);
      assert !OwnFault(ss[k], acts[k], i);
      RunOnWaiting(ss, acts, ps, k, i);
    }
  }

  lemma {:induction false} NoDecisionWhileDeferred(ss: seq<Sys>, acts: seq<Step>, ps: seq<Policy>, j: nat, b: nat, i: nat)
    requires IsRun(ss, acts, ps) && j <= b <= |acts| && ss[j].ctl == Deferred(i) && !EnteredIn(ss, j, b, i)
    ensures Decisions(acts, j, b) == 0
    decreases b - j
  {
    if j < b {
      RunOnDeferred(ss, acts, ps, j, i);
      assert !OnCpu(ss[j + 1], i);
      assert !EnteredIn(ss, j + 1, b, i);
      NoDecisionWhileDeferred(ss, acts, ps, j + 1, b, i);
    }
  }

  lemma {:induction false} DecisionsAdd(acts: seq<Step>, a: nat, c: nat, b: nat)
    requires a <= c <= b <= |acts|
    ensures Decisions(acts, a, b) == Decisions(acts, a, c) + Decisions(acts, c, b)
    decreases c - a
  {
    if a < c { DecisionsAdd(acts, a + 1, c, b); }
  }

  lemma ChosenLeadsToEntry(ss: seq<Sys>, acts: seq<Step>, ps: seq<Policy>, a: nat, b: nat, i: nat, k: nat)
    requires IsRun(ss, acts, ps) && a <= k < b <= |acts| && WaitsReady(ss[a], i)
    requires NoOwnFault(ss, acts, a, b, i) && !EnteredIn(ss, a, b, i) && ChoosesAt(ss, acts, k, i)
    ensures Decisions(acts, a, b) == Decisions(acts, a, k + 1)
  {
    assert !EnteredIn(ss, a, k, i);
    StaysWaiting(ss, acts, ps, a, k, i);
    assert !OwnFault(ss[k], acts[k], i) && !OnCpu(ss[k + 1], i);
    RunOnChosen(ss, acts, ps, k, i);
    assert !EnteredIn(ss, k + 1, b, i);
    NoDecisionWhileDeferred(ss, acts, ps, k + 1, b, i);
    DecisionsAdd(acts, a, k + 1, b);
  }

  /** On every run, from any state: the runnable tasklet of a waiting guest is entered within one decision
      more than there are places between the guest and the one chosen last, unless the guest itself runs
      on after its submit and faults. */
  lemma RunnableIsEntered(ss: seq<Sys>, acts: seq<Step>, ps: seq<Policy>, a: nat, b: nat, i: nat)
    requires IsRun(ss, acts, ps) && a <= b <= |acts| && i < |ps| && WaitsReady(ss[a], i)
    requires !RunsCode(ss[a], i) || NoOwnFault(ss, acts, a, b, i)
    ensures Chosen(ss[a]) < |ps|
    ensures Decisions(acts, a, b) > Places(Chosen(ss[a]), i, |ps|) + 1 ==> EnteredIn(ss, a, b, i)
  {
    AlwaysInv(ss, acts, ps, a);
    if !EnteredIn(ss, a, b, i) && Decisions(acts, a, b) > Places(Chosen(ss[a]), i, |ps|) + 1 {
      if !RunsCode(ss[a], i) { OffCpuCannotFault(ss, acts, ps, a, b, i); }
      EligibleWhileWaiting(ss, acts, ps, a, b, i);
      ServedOnRuns(ss, acts, ps, a, b, i);
      var k :| a <= k < b && ChoosesAt(ss, acts, k, i) && Decisions(acts, a, k + 1) <= Places(Chosen(ss[a]), i, |ps|) + 1;
      ChosenLeadsToEntry(ss, acts, ps, a, b, i, k);
      assert false;
    }
  }

  // ---------------------------------------------------------------- a waiting guest whose tasklet waits for the lock

  /** This step hands the lock on. */
  ghost predicate HandsOn(s: Sys, a: Step) {
    (a == Releases || a == TaskletFaults) && s.lock.holder.Some? && s.lock.holder == s.co.current
  }

  ghost function HandOns(ss: seq<Sys>, acts: seq<Step>, a: nat, b: nat): nat
    requires a <= b <= |acts| <= |ss|
    decreases b
  {
    if a == b then 0 else HandOns(ss, acts, a, b - 1) + if HandsOn(ss[b - 1], acts[b - 1]) then 1 else 0
  }

  /** Tasklet i is in place m (from 0) of the lock's wait list. */
  ghost predicate InLine(s: Sys, i: nat, m: int) {
    0 <= m < |s.lock.waiters| && s.lock.waiters[m] == i
  }

  /** Where a waiter in place m is after a step, if the lock is handed on in it or not. */
  ghost predicate Advances(s': Sys, i: nat, m: nat, handed: bool) {
    if !handed then InLine(s', i, m)
    else if m > 0 then InLine(s', i, m - 1)
    else WaitsReady(s', i) && !RunsCode(s', i)
  }

  lemma WaiterIsBusy(s: Sys, i: nat, m: nat)
    requires Inv(s) && InLine(s, i, m)
    ensures i < |s.mon.gs| && s.mon.gs[i].st == WaitingHsm && s.co.state[i] == Blocked && !OnCpu(s, i)
    ensures s.lock.holder.Some? && s.lock.holder != Some(i) && !RunsCode(s, i)
  {
    assert i in s.lock.waiters;
    assert ServerOk(s, i) && LockingOk(s, i);
  }

  lemma SchedulingKeepsLock(s: Sys, ps: seq<Policy>, a: Step)
    requires Inv(s) && CanStep(s, a) && |ps| == |s.mon.gs| && (HsmScheduling.Decides(a) || a.Timer?)
    ensures Advance(s, ps, a).lock == s.lock
  {
    if a == LoopTurn { DecisionsNeverPanic(s.mon, RunnableTasklets(s), false); }
    if a.Timer? { DecisionBounded(s.mon, RunnableTasklets(s), a.trap); }
  }

  lemma ReleaseInLine(s: Sys, i: nat, m: nat)
    requires Inv(s) && At(s, Locked) && InLine(s, i, m) && Inv(ReleaseStep(s))
    ensures HandsOn(s, Releases) && Advances(ReleaseStep(s), i, m, true)
  {
    WaiterIsBusy(s, i, m);
    assert LockingOk(s, s.mon.cur);
  }

  lemma FaultInLine(s: Sys, i: nat, m: nat)
    requires Inv(s) && s.ctl == InTaskletCode && InLine(s, i, m) && Inv(TaskletFaultStep(s))
    ensures Advances(TaskletFaultStep(s), i, m, HandsOn(s, TaskletFaults))
  {
    WaiterIsBusy(s, i, m);
    DeathEffect(s.co, s.lock, s.mon.cur, i);
  }

  /** One step moves a waiter by one place if it hands the lock on, and not at all otherwise; the first one
      becomes runnable. */
  lemma StepInLine(s: Sys, ps: seq<Policy>, a: Step, i: nat, m: nat)
    requires Inv(s) && CanStep(s, a) && |ps| == |s.mon.gs| && InLine(s, i, m) && Inv(Advance(s, ps, a))
    ensures Advances(Advance(s, ps, a), i, m, HandsOn(s, a))
  {
    match a
    case Timer(_) => SchedulingKeepsLock(s, ps, a);
    case GuestFaults => SchedulingKeepsLock(s, ps, a);
    case LoopTurn => SchedulingKeepsLock(s, ps, a);
    case Releases => ReleaseInLine(s, i, m);
    case TaskletFaults => FaultInLine(s, i, m);
    case _ =>
  }

  lemma RunInLine(ss: seq<Sys>, acts: seq<Step>, ps: seq<Policy>, k: nat, i: nat, m: nat)
    requires IsRun(ss, acts, ps) && k < |acts| && InLine(ss[k], i, m)
    ensures Advances(ss[k + 1], i, m, HandsOn(ss[k], acts[k]))
  {
    RunStep(ss, acts, ps, k);
    StepInLine(ss[k], ps, acts[k], i, m);
  }

  /** Over any run the waiter in place m is in place m - h after h <= m hand-offs. */
  lemma {:induction false} LineMovesUp(ss: seq<Sys>, acts: seq<Step>, ps: seq<Policy>, a: nat, b: nat, i: nat, m: nat)
    requires IsRun(ss, acts, ps) && a <= b <= |acts| && InLine(ss[a], i, m) && HandOns(ss, acts, a, b) <= m
    ensures InLine(ss[b], i, m - HandOns(ss, acts, a, b))
    decreases b
  {
    if a < b {
      var k := b - 1;
      LineMovesUp(ss, acts, ps, a, k, i, m);
      RunInLine(ss, acts, ps, k, i, m - HandOns(ss, acts, a, k));
    }
  }

  /** ... and hand-off number m + 1 makes it runnable. */
  lemma {:induction false} LineEnds(ss: seq<Sys>, acts: seq<Step>, ps: seq<Policy>, a: nat, b: nat, i: nat, m: nat) returns (d: nat)
    requires IsRun(ss, acts, ps) && a <= b <= |acts| && InLine(ss[a], i, m) && HandOns(ss, acts, a, b) > m
    ensures a < d <= b && WaitsReady(ss[d], i) && !RunsCode(ss[d], i)
    decreases b
  {
    var k := b - 1;
    if HandOns(ss, acts, a, k) > m {
      d := LineEnds(ss, acts, ps, a, k, i, m);
    } else {
      LineMovesUp(ss, acts, ps, a, k, i, m);
      RunInLine(ss, acts, ps, k, i, m - HandOns(ss, acts, a, k));
      d := b;
    }
  }

  lemma {:induction false} FewerDecisionsLater(acts: seq<Step>, d: nat, c: nat, b: nat)
    requires d <= c <= b <= |acts|
    ensures Decisions(acts, d, b) >= Decisions(acts, c, b)
  {
    DecisionsAdd(acts, d, c, b);
  }

  lemma EnteredEarlier(ss: seq<Sys>, a: nat, d: nat, b: nat, i: nat)
    requires a <= d <= b < |ss| && EnteredIn(ss, d, b, i)
    ensures EnteredIn(ss, a, b, i)
  {
    var k :| d < k <= b && OnCpu(ss[k], i);
    assert OnCpu(ss[k], i);
  }

  // ---------------------------------------------------------------- both together

  /** How many hand-offs must come before tasklet i has the lock it waits for; 0 if it does not wait. */
  function Ahead(waiters: seq<nat>, i: nat): (n: nat)
    ensures i in waiters <==> n > 0
    ensures n > 0 ==> n <= |waiters| && waiters[n - 1] == i
  {
    if waiters == [] then 0
    else if waiters[0] == i then 1
    else
      var n := Ahead(waiters[1..], i);
      if n > 0 then n + 1 else 0
  }

  /** Bounded waiting for an answer to begin: on every run from boot with disciplined clients, whenever a
      guest waits, its tasklet has the CPU or is entered as soon as the lock has been handed on once for
      everybody ahead of it and, after that, more decisions have been taken than there are guests,
      whatever the others do; a guest that still runs after its submit must not fault itself. */
  lemma WaitingIsServed(ss: seq<Sys>, acts: seq<Step>, ps: seq<Policy>, a: nat, c: nat, b: nat, i: nat)
    requires DisciplinedRun(ss, acts, ps) && a <= c <= b <= |acts|
    requires i < |ss[a].mon.gs| && ss[a].mon.gs[i].st == WaitingHsm
    requires !RunsCode(ss[a], i) || NoOwnFault(ss, acts, a, b, i)
    requires HandOns(ss, acts, a, c) >= Ahead(ss[a].lock.waiters, i)
    requires Decisions(acts, c, b) > |ps|
    ensures OnCpu(ss[a], i) || EnteredIn(ss, a, b, i)
  {
    NoLostWakeup(ss, acts, ps, a, i);
    AlwaysInv(ss, acts, ps, a);
    var n := Ahead(ss[a].lock.waiters, i);
    var d := a;
    if n > 0 {
      assert InLine(ss[a], i, n - 1);
      d := LineEnds(ss, acts, ps, a, c, i, n - 1);
    }
    if !OnCpu(ss[a], i) {
      assert WaitsReady(ss[d], i);
      FewerDecisionsLater(acts, d, c, b);
      RunnableIsEntered(ss, acts, ps, d, b, i);
      EnteredEarlier(ss, a, d, b, i);
    }
  }

  // ---------------------------------------------------------------- bounded by the timer

  /** A timer tick that finds guest code, or the tasklet of a waiting guest, on the CPU. */
  ghost predicate FindsWork(s: Sys, a: Step) {
    a == Timer(InGuest) ||
    (a.Timer? && s.ctl == InTaskletCode && s.mon.cur < |s.mon.gs| && s.mon.gs[s.mon.cur].st == WaitingHsm)
  }

  ghost function BusyTicks(ss: seq<Sys>, acts: seq<Step>, a: nat, b: nat): nat
    requires a <= b <= |acts| <= |ss|
    decreases b
  {
    if a == b then 0 else BusyTicks(ss, acts, a, b - 1) + if FindsWork(ss[b - 1], acts[b - 1]) then 1 else 0
  }

  /** Such a tick is a decision, or leaves the loop to take one before anything else runs. */
  lemma WorkIsDecided(s: Sys, ps: seq<Policy>, a: Step)
    requires Inv(s) && CanStep(s, a) && |ps| == |s.mon.gs| && !HsmScheduling.Decides(a)
    ensures FindsWork(s, a) ==> s.ctl != InLoop && Advance(s, ps, a).ctl == InLoop
    ensures s.ctl == InLoop ==> Advance(s, ps, a).ctl == InLoop
  {
    if FindsWork(s, a) { HsmSteps.TickInTasklet(s, ps); }
  }

  lemma DecisionsSnoc(acts: seq<Step>, a: nat, b: nat)
    requires a < b <= |acts|
    ensures Decisions(acts, a, b) == Decisions(acts, a, b - 1) + if HsmScheduling.Decides(acts[b - 1]) then 1 else 0
  {
    DecisionsAdd(acts, a, b - 1, b);
    assert Decisions(acts, b, b) == 0;
  }

  ghost function InLoopNow(s: Sys): nat {
    if s.ctl == InLoop then 1 else 0
  }

  lemma RunWork(ss: seq<Sys>, acts: seq<Step>, ps: seq<Policy>, m: nat)
    requires IsRun(ss, acts, ps) && m < |acts|
    ensures InLoopNow(ss[m]) + (if FindsWork(ss[m], acts[m]) then 1 else 0) <=
            InLoopNow(ss[m + 1]) + if HsmScheduling.Decides(acts[m]) then 1 else 0
  {
    RunStep(ss, acts, ps, m);
    if !HsmScheduling.Decides(acts[m]) { WorkIsDecided(ss[m], ps, acts[m]); }
  }

  /** The timer forces decisions: any run contains at least as many, less one. */
  lemma {:induction false} TicksForceDecisions(ss: seq<Sys>, acts: seq<Step>, ps: seq<Policy>, a: nat, b: nat)
    requires IsRun(ss, acts, ps) && a <= b <= |acts|
    ensures BusyTicks(ss, acts, a, b) <= Decisions(acts, a, b) + InLoopNow(ss[b])
    decreases b
  {
    if a < b {
      TicksForceDecisions(ss, acts, ps, a, b - 1);
      DecisionsSnoc(acts, a, b);
      RunWork(ss, acts, ps, b - 1);
    }
  }

  /** Bounded waiting in time: once the lock has been handed on for everybody ahead, the tasklet of a waiting
      guest is entered within two more timer ticks than there are guests, counting the ticks that find
      guest code or a waiting guest's tasklet on the CPU; however long those would like to go on. */
  lemma WaitingIsServedInTime(ss: seq<Sys>, acts: seq<Step>, ps: seq<Policy>, a: nat, c: nat, b: nat, i: nat)
    requires DisciplinedRun(ss, acts, ps) && a <= c <= b <= |acts|
    requires i < |ss[a].mon.gs| && ss[a].mon.gs[i].st == WaitingHsm
    requires !RunsCode(ss[a], i) || NoOwnFault(ss, acts, a, b, i)
    requires HandOns(ss, acts, a, c) >= Ahead(ss[a].lock.waiters, i)
    requires BusyTicks(ss, acts, c, b) > |ps| + 1
    ensures OnCpu(ss[a], i) || EnteredIn(ss, a, b, i)
  {
    TicksForceDecisions(ss, acts, ps, c, b);
    WaitingIsServed(ss, acts, ps, a, c, b, i);
  }
}
