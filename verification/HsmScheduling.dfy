/** Scheduling over all runs of the HSM system: who is served when, what becomes of a restarted guest,
    and when the monitor runs out of guests. */
module HsmScheduling {
  import opened Base
  import opened Coroutine
  import opened Monitor
  import opened HsmSystem
  import opened HsmRuns

  // ---------------------------------------------------------------- decisions of a run

  /** The steps in which the monitor chooses the next guest. */
  ghost predicate Decides(a: Step) {
    a == Timer(InGuest) || a == GuestFaults || a == LoopTurn
  }

  /** The monitor's state as the decision finds it: after the running guest was saved and a back-off
      round, after the faulting guest was dealt with, or as it is. */
  ghost function SceneOf(s: Sys, ps: seq<Policy>, a: Step): (m: Mon)
    requires Shape(s) && |ps| == |s.mon.gs|
    ensures |m.gs| == |s.mon.gs| && m.cur == s.mon.cur
  {
    match a
    case Timer(_) => TakenOff(s).mon
    case GuestFaults => Punish(s.mon, ps)
    case _ => s.mon
  }

  /** The guest chosen last: the current one, or the one whose tasklet is still to be resumed. */
  ghost function Chosen(s: Sys): nat {
    if s.ctl.Deferred? then s.ctl.g else s.mon.cur
  }

  /** The scan over n guests returned r, and s' is what the monitor made of it. */
  ghost predicate Outcome(s': Sys, r: nat, n: nat) {
    if r == n then s'.ctl == Halted else s'.ctl != Halted && Chosen(s') == r
  }

  /** What the scan returns for a monitor state. */
  ghost function Scan(m: Mon, hsm: seq<bool>): (r: nat)
    requires |hsm| == |m.gs| && m.cur < |m.gs|
    ensures r <= |m.gs|
  {
    FindFrom(m.gs, hsm, Cyc(m.cur + 1, |m.gs|), 0)
  }

  lemma ObeysScan(s: Sys, m: Mon, hsm: seq<bool>, handler: bool)
    requires Shape(s) && |hsm| == |m.gs| == |s.co.state| && m.cur < |m.gs|
    ensures var mv := ScheduleNext(m, hsm, handler);
            (mv.1.EnterTasklet? ==> mv.1.g < |s.co.state|) && Outcome(Obey(s, mv), Scan(m, hsm), |m.gs|)
  {
    DecisionsNeverPanic(m, hsm, handler);
  }

  lemma TimerOutcome(s: Sys)
    requires Shape(s) && s.ctl == InGuestCode
    ensures Outcome(TimerStep(s, InGuest), Scan(TakenOff(s).mon, RunnableTasklets(s)), |s.mon.gs|)
  {
    TimerInGuestShape(s);
    ObeysScan(TakenOff(s), TakenOff(s).mon, RunnableTasklets(s), true);
  }

  lemma FaultOutcome(s: Sys, ps: seq<Policy>)
    requires Shape(s) && s.ctl == InGuestCode && |ps| == |s.mon.gs|
    ensures Outcome(FaultStep(s, ps), Scan(Punish(s.mon, ps), RunnableTasklets(s)), |s.mon.gs|)
  {
    var i, m := s.mon.cur, Punish(s.mon, ps);
    var s1 := if m.gs[i].st == Restarting && ps[i].clears then s.(srv := s.srv[i := Cleared(s.srv[i])]) else s;
    ObeysScan(s1, m, RunnableTasklets(s), true);
  }

  lemma TurnOutcome(s: Sys)
    requires Shape(s)
    ensures var mv := ScheduleNext(s.mon, RunnableTasklets(s), false);
            (mv.1.EnterTasklet? ==> mv.1.g < |s.co.state|)
    ensures Outcome(LoopStep(s), Scan(s.mon, RunnableTasklets(s)), |s.mon.gs|)
  {
    ObeysScan(s, s.mon, RunnableTasklets(s), false);
  }

  /** A decision starts its scan behind the guest chosen last, and the result is the guest chosen next;
      the monitor gives up if and only if the scan finds nobody. */
  lemma DecisionStep(s: Sys, ps: seq<Policy>, a: Step)
    requires Inv(s) && CanStep(s, a) && |ps| == |s.mon.gs| && Decides(a)
    ensures Chosen(s) == s.mon.cur
    ensures Outcome(Advance(s, ps, a), Scan(SceneOf(s, ps, a), RunnableTasklets(s)), |ps|)
  {
    if a == GuestFaults { FaultOutcome(s, ps); }
    else if a == LoopTurn { TurnOutcome(s); }
    else { TimerOutcome(s); }
  }

  /** Other steps change neither the choice nor a halt. */
  lemma OtherStep(s: Sys, ps: seq<Policy>, a: Step)
    requires Inv(s) && CanStep(s, a) && |ps| == |s.mon.gs| && !Decides(a)
    ensures Chosen(Advance(s, ps, a)) == Chosen(s) && Advance(s, ps, a).ctl != Halted
  {
    if a == ResumeDeferred { EnterTaskletKeepsInv(s, s.ctl.g); }
  }

  ghost predicate NobodyEligible(m: Mon, hsm: seq<bool>)
    requires |hsm| == |m.gs|
  {
    forall i :: 0 <= i < |m.gs| ==> !Eligible(m.gs[i], hsm[i])
  }

  /** wt_platform_all_guests_faulted is reached exactly in a decision that finds nobody eligible. */
  lemma HaltsExactlyWhenNoneEligible(s: Sys, ps: seq<Policy>, a: Step)
    requires Inv(s) && CanStep(s, a) && |ps| == |s.mon.gs|
    ensures Advance(s, ps, a).ctl == Halted <==>
            Decides(a) && NobodyEligible(SceneOf(s, ps, a), RunnableTasklets(s))
  {
    if Decides(a) {
      DecisionStep(s, ps, a);
      ScanFindsSomebody(SceneOf(s, ps, a), RunnableTasklets(s));
    } else {
      OtherStep(s, ps, a);
    }
  }

  lemma ScanFindsSomebody(m: Mon, hsm: seq<bool>)
    requires |hsm| == |m.gs| && m.cur < |m.gs|
    ensures Scan(m, hsm) == |m.gs| <==> NobodyEligible(m, hsm)
  {
    FindsNearest(m.gs, hsm, Cyc(m.cur + 1, |m.gs|));
  }

  const ONE_POLICY := [Policy(3, 64, 1, true)]

  /** The name promises that all guests are faulted, but a guest that is only being restarted is enough:
      with one guest, its first fault ends in it. */
  lemma HaltsWhileRestarting()
    ensures Inv(BootSys(1)) && CanStep(BootSys(1), GuestFaults)
    ensures var s' := Advance(BootSys(1), ONE_POLICY, GuestFaults);
            s'.ctl == Halted && |s'.mon.gs| == 1 && s'.mon.gs[0].st == Restarting
  {
    BootInv(1);
    var s := BootSys(1);
    FaultOnGuest(s, ONE_POLICY, 0);
    DecisionOnGuest(s, Punish(s.mon, ONE_POLICY), RunnableTasklets(s), true, 0);
    HaltsExactlyWhenNoneEligible(s, ONE_POLICY, GuestFaults);
  }

  // ---------------------------------------------------------------- bounded waiting

  /** Decisions among the steps a .. b-1. */
  ghost function Decisions(acts: seq<Step>, a: nat, b: nat): nat
    requires a <= b <= |acts|
    decreases b - a
  {
    if a == b then 0 else (if Decides(acts[a]) then 1 else 0) + Decisions(acts, a + 1, b)
  }

  /** If step k is a decision, guest i is eligible at it. */
  ghost predicate EligibleAt(s: Sys, ps: seq<Policy>, a: Step, i: nat) {
    Shape(s) && i < |s.mon.gs| == |ps| &&
    (Decides(a) ==> Eligible(SceneOf(s, ps, a).gs[i], RunnableTasklets(s)[i]))
  }

  /** Step k chooses guest i. */
  ghost predicate ChoosesAt(ss: seq<Sys>, acts: seq<Step>, k: nat, i: nat) {
    k < |acts| && k + 1 < |ss| && Decides(acts[k]) && ss[k + 1].ctl != Halted && Chosen(ss[k + 1]) == i
  }

  /** Moving on from c to c' brings the scan to guest i, or its start nearer to i. */
  ghost predicate Nearer(c: nat, c': nat, i: nat, n: nat) {
    c < n && c' < n && i < n &&
    (c' == i || Distance(Cyc(c' + 1, n), i, n) < Distance(Cyc(c + 1, n), i, n))
  }

  lemma ScanComesNearer(m: Mon, hsm: seq<bool>, i: nat)
    requires |hsm| == |m.gs| && m.cur < |m.gs| && i < |m.gs| && Eligible(m.gs[i], hsm[i])
    ensures Nearer(m.cur, Scan(m, hsm), i, |m.gs|)
  {
    ComesNearer(m.gs, hsm, m.cur, i);
  }

  lemma DecisionComesNearer(s: Sys, ps: seq<Policy>, a: Step, i: nat)
    requires Inv(s) && CanStep(s, a) && |ps| == |s.mon.gs| && i < |ps| && Decides(a) && EligibleAt(s, ps, a, i)
    ensures Advance(s, ps, a).ctl != Halted && Nearer(Chosen(s), Chosen(Advance(s, ps, a)), i, |ps|)
  {
    DecisionStep(s, ps, a);
    ScanComesNearer(SceneOf(s, ps, a), RunnableTasklets(s), i);
  }

  /** The guest chosen stays, or the next decision brings guest i nearer. */
  ghost predicate ChoiceMoves(a: Step, s: Sys, s': Sys, i: nat, n: nat) {
    if !Decides(a) then Chosen(s') == Chosen(s) else s'.ctl != Halted && Nearer(Chosen(s), Chosen(s'), i, n)
  }

  lemma ChoiceComesNearer(s: Sys, ps: seq<Policy>, a: Step, i: nat)
    requires Inv(s) && CanStep(s, a) && |ps| == |s.mon.gs| && i < |ps| && EligibleAt(s, ps, a, i)
    ensures ChoiceMoves(a, s, Advance(s, ps, a), i, |ps|)
  {
    if Decides(a) { DecisionComesNearer(s, ps, a, i); } else { OtherStep(s, ps, a); }
  }

  lemma RunComesNearer(ss: seq<Sys>, acts: seq<Step>, ps: seq<Policy>, a: nat, i: nat)
    requires IsRun(ss, acts, ps) && a < |acts| && i < |ps| && EligibleAt(ss[a], ps, acts[a], i)
    ensures Shape(ss[a]) && Shape(ss[a + 1]) && |ss[a].mon.gs| == |ss[a + 1].mon.gs| == |ps|
    ensures ChoiceMoves(acts[a], ss[a], ss[a + 1], i, |ps|)
  {
    AlwaysInv(ss, acts, ps, a);
    AlwaysInv(ss, acts, ps, a + 1);
    assert Moves(ss[a], ps, acts[a], ss[a + 1]);
    ChoiceComesNearer(ss[a], ps, acts[a], i);
  }

  ghost predicate EligibleThroughout(ss: seq<Sys>, acts: seq<Step>, ps: seq<Policy>, a: nat, b: nat, i: nat)
    requires b <= |acts| <= |ss|
  {
    forall k {:trigger EligibleAt(ss[k], ps, acts[k], i)} :: a <= k < b ==> EligibleAt(ss[k], ps, acts[k], i)
  }

  /** Between steps a and b guest i is chosen, by decision number `bound` at the latest. */
  ghost predicate ServedIn(ss: seq<Sys>, acts: seq<Step>, a: nat, b: nat, i: nat, bound: nat)
    requires b <= |acts|
  {
    exists k {:trigger ChoosesAt(ss, acts, k, i)} :: a <= k < b && ChoosesAt(ss, acts, k, i) && Decisions(acts, a, k + 1) <= bound
  }

  lemma ServedLater(ss: seq<Sys>, acts: seq<Step>, a: nat, b: nat, i: nat, bound: nat)
    requires a < b <= |acts| && ServedIn(ss, acts, a + 1, b, i, bound)
    ensures ServedIn(ss, acts, a, b, i, bound + if Decides(acts[a]) then 1 else 0)
  {
    var k :| a + 1 <= k < b && ChoosesAt(ss, acts, k, i) && Decisions(acts, a + 1, k + 1) <= bound;
    assert Decisions(acts, a, k + 1) == (if Decides(acts[a]) then 1 else 0) + Decisions(acts, a + 1, k + 1);
  }

  lemma ServedNow(ss: seq<Sys>, acts: seq<Step>, a: nat, b: nat, i: nat, bound: nat)
    requires a < b <= |acts| && ChoosesAt(ss, acts, a, i) && bound > 0
    ensures ServedIn(ss, acts, a, b, i, bound)
  {
    assert Decisions(acts, a + 1, a + 1) == 0;
  }

  /** Places between the start of the scan behind c and guest i. */
  ghost function Places(c: nat, i: nat, n: nat): (d: nat)
    requires c < n && i < n
    ensures d < n
  {
    Distance(Cyc(c + 1, n), i, n)
  }

  lemma {:induction false} ServedWithin(ss: seq<Sys>, acts: seq<Step>, ps: seq<Policy>, a: nat, b: nat, i: nat, d: nat)
    requires IsRun(ss, acts, ps) && a <= b <= |acts| && i < |ps| && Chosen(ss[a]) < |ps|
    requires Places(Chosen(ss[a]), i, |ps|) <= d < Decisions(acts, a, b)
    requires EligibleThroughout(ss, acts, ps, a, b, i)
    ensures ServedIn(ss, acts, a, b, i, d + 1)
    decreases b - a
  {
    assert EligibleAt(ss[a], ps, acts[a], i);
    RunComesNearer(ss, acts, ps, a, i);
    if ChoosesAt(ss, acts, a, i) {
      ServedNow(ss, acts, a, b, i, d + 1);
    } else {
      var d' := if Decides(acts[a]) then d - 1 else d;
      ServedWithin(ss, acts, ps, a + 1, b, i, d');
      ServedLater(ss, acts, a, b, i, d' + 1);
    }
  }

  /** Bounded waiting over whole runs: whatever the other guests and the tasklets do, a guest that is
      eligible at every decision from step a on is chosen after at most as many decisions as there are
      places between it and the guest chosen last, so within guest_count decisions. */
  lemma ServedOnRuns(ss: seq<Sys>, acts: seq<Step>, ps: seq<Policy>, a: nat, b: nat, i: nat)
    requires IsRun(ss, acts, ps) && a <= b <= |acts| && i < |ps|
    requires EligibleThroughout(ss, acts, ps, a, b, i)
    ensures Chosen(ss[a]) < |ps|
    ensures Decisions(acts, a, b) > Places(Chosen(ss[a]), i, |ps|) ==>
              ServedIn(ss, acts, a, b, i, Places(Chosen(ss[a]), i, |ps|) + 1)
    ensures Decisions(acts, a, b) >= |ps| ==> ServedIn(ss, acts, a, b, i, |ps|)
  {
    AlwaysInv(ss, acts, ps, a);
    if Decisions(acts, a, b) > Places(Chosen(ss[a]), i, |ps|) {
      ServedWithin(ss, acts, ps, a, b, i, Places(Chosen(ss[a]), i, |ps|));
    }
    if Decisions(acts, a, b) >= |ps| { ServedWithin(ss, acts, ps, a, b, i, |ps| - 1); }
  }

  // ---------------------------------------------------------------- restarted guests

  /** Steps with a back-off round. */
  ghost predicate BacksOff(a: Step) {
    a.Timer? && a.trap != InService
  }

  ghost function BackoffRounds(acts: seq<Step>, a: nat, b: nat): nat
    requires a <= b <= |acts|
    decreases b
  {
    if a == b then 0 else BackoffRounds(acts, a, b - 1) + if BacksOff(acts[b - 1]) then 1 else 0
  }

  lemma TakenOffRestarting(s: Sys, i: nat)
    requires Inv(s) && s.ctl == InGuestCode && i < |s.mon.gs| && s.mon.gs[i].st == Restarting
    ensures |TakenOff(s).mon.gs| == |s.mon.gs| && TakenOff(s).mon.gs[i] == BackoffGuest(s.mon.gs[i])
  {}

  lemma TimerOnRestarting(s: Sys, trap: Trap, i: nat)
    requires Inv(s) && CanStep(s, Timer(trap)) && i < |s.mon.gs| && s.mon.gs[i].st == Restarting
    ensures var gs := TimerStep(s, trap).mon.gs;
            && |gs| == |s.mon.gs|
            && if trap == InService then gs[i] == s.mon.gs[i]
               else if s.mon.gs[i].delay == 1 then gs[i].st == Ready || gs[i].st == GuestState.Running
               else gs[i] == BackoffGuest(s.mon.gs[i])
  {
    if trap == InGuest {
      TimerInGuestShape(s);
      TakenOffRestarting(s, i);
      DecisionOnGuest(TakenOff(s), TakenOff(s).mon, RunnableTasklets(s), true, i);
      DecisionsNeverPanic(TakenOff(s).mon, RunnableTasklets(s), true);
    }
  }

  /** One step on a guest that is being restarted: only back-off rounds touch it. */
  lemma StepOnRestarting(s: Sys, ps: seq<Policy>, a: Step, i: nat)
    requires Inv(s) && CanStep(s, a) && |ps| == |s.mon.gs| && i < |ps| && s.mon.gs[i].st == Restarting
    ensures var gs := Advance(s, ps, a).mon.gs;
            && |gs| == |s.mon.gs|
            && if !BacksOff(a) then gs[i] == s.mon.gs[i]
               else if s.mon.gs[i].delay == 1 then gs[i].st == Ready || gs[i].st == GuestState.Running
               else gs[i] == BackoffGuest(s.mon.gs[i])
  {
    match a
    case Timer(trap) => TimerOnRestarting(s, trap, i);
    case GuestFaults => DecisionOnGuest(s, Punish(s.mon, ps), RunnableTasklets(s), true, i);
    case LoopTurn => DecisionOnGuest(s, s.mon, RunnableTasklets(s), false, i);
    case _ =>
  }

  lemma MoveOnRestarting(s: Sys, ps: seq<Policy>, a: Step, s': Sys, i: nat)
    requires Inv(s) && |ps| == |s.mon.gs| && Moves(s, ps, a, s') && i < |ps| && s.mon.gs[i].st == Restarting
    ensures && |s'.mon.gs| == |s.mon.gs|
            && if !BacksOff(a) then s'.mon.gs[i] == s.mon.gs[i]
               else if s.mon.gs[i].delay == 1 then s'.mon.gs[i].st == Ready || s'.mon.gs[i].st == GuestState.Running
               else s'.mon.gs[i] == BackoffGuest(s.mon.gs[i])
  {
    StepOnRestarting(s, ps, a, i);
  }

  lemma RunOnRestarting(ss: seq<Sys>, acts: seq<Step>, ps: seq<Policy>, m: nat, i: nat)
    requires IsRun(ss, acts, ps) && m < |acts| && i < |ss[m].mon.gs| && ss[m].mon.gs[i].st == Restarting
    ensures i < |ss[m + 1].mon.gs|
    ensures var g, g' := ss[m].mon.gs[i], ss[m + 1].mon.gs[i];
            if !BacksOff(acts[m]) then g' == g
            else if g.delay == 1 then g'.st == Ready || g'.st == GuestState.Running
            else g' == BackoffGuest(g)
  {
    AlwaysInv(ss, acts, ps, m);
    assert Moves(ss[m], ps, acts[m], ss[m + 1]);
    MoveOnRestarting(ss[m], ps, acts[m], ss[m + 1], i);
  }

  /** A guest that is being restarted, with no delay left to count down. */
  ghost predicate Stranded(s: Sys, i: nat) {
    i < |s.mon.gs| && s.mon.gs[i].st == Restarting && s.mon.gs[i].delay == 0
  }

  /** A restart strands the guest if and only if the policy's initial delay is 0. */
  lemma RestartStrands(s: Sys, ps: seq<Policy>)
    requires Inv(s) && s.ctl == InGuestCode && |ps| == |s.mon.gs|
    requires Punish(s.mon, ps).gs[s.mon.cur].st == Restarting
    ensures Stranded(FaultStep(s, ps), s.mon.cur) <==> ps[s.mon.cur].delay == 0
  {
    DecisionOnGuest(s, Punish(s.mon, ps), RunnableTasklets(s), true, s.mon.cur);
  }

  /** A stranded guest stays so and never runs again, on any continuation. */
  lemma {:induction false} StrandedForever(ss: seq<Sys>, acts: seq<Step>, ps: seq<Policy>, a: nat, b: nat, i: nat)
    requires IsRun(ss, acts, ps) && a <= b <= |acts| && Stranded(ss[a], i)
    ensures Stranded(ss[b], i) && !RunsCode(ss[b], i)
    decreases b
  {
    AlwaysInv(ss, acts, ps, b);
    if a < b {
      var m := b - 1;
      StrandedForever(ss, acts, ps, a, m, i);
      RunOnRestarting(ss, acts, ps, m, i);
    }
  }

  /** With a delay of d > 0 it counts down with the back-off rounds and nothing else ... */
  lemma {:induction false} DelayCountsDown(ss: seq<Sys>, acts: seq<Step>, ps: seq<Policy>, a: nat, b: nat, i: nat)
    requires IsRun(ss, acts, ps) && a <= b <= |acts| && i < |ss[a].mon.gs|
    requires ss[a].mon.gs[i].st == Restarting && BackoffRounds(acts, a, b) < ss[a].mon.gs[i].delay
    ensures i < |ss[b].mon.gs|
    ensures ss[b].mon.gs[i] == ss[a].mon.gs[i].(delay := ss[a].mon.gs[i].delay - BackoffRounds(acts, a, b))
    decreases b
  {
    if a < b {
      var m := b - 1;
      DelayCountsDown(ss, acts, ps, a, m, i);
      RunOnRestarting(ss, acts, ps, m, i);
    }
  }

  /** ... and round number d makes the guest ready, or lets it run at once. */
  lemma ReadyAfterDelay(ss: seq<Sys>, acts: seq<Step>, ps: seq<Policy>, a: nat, b: nat, i: nat)
    requires IsRun(ss, acts, ps) && a < b <= |acts| && i < |ss[a].mon.gs|
    requires ss[a].mon.gs[i].st == Restarting && BacksOff(acts[b - 1])
    requires BackoffRounds(acts, a, b) == ss[a].mon.gs[i].delay
    ensures i < |ss[b].mon.gs| && (ss[b].mon.gs[i].st == Ready || ss[b].mon.gs[i].st == GuestState.Running)
  {
    var m := b - 1;
    DelayCountsDown(ss, acts, ps, a, m, i);
    assert ss[m].mon.gs[i].delay == 1;
    RunOnRestarting(ss, acts, ps, m, i);
  }
}
