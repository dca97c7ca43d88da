/** What every step of the HSM system does, read off the states before and after it. */
module HsmSteps {
  import opened Base
  import opened Coroutine
  import opened Monitor
  import opened HsmSystem
  import opened HsmRuns
  import opened HsmScheduling

  // ---------------------------------------------------------------- the timer

  ghost predicate Waits(s: Sys, i: nat)
    requires i < |s.mon.gs|
  {
    s.mon.gs[i].st == WaitingHsm
  }

  /** Tasklet i was preempted: runnable outside the queue, and nobody is on the CPU. */
  ghost predicate Preempted(s: Sys, i: nat) {
    && i < |s.co.state| && s.co.state[i] == Runnable && i in s.co.parked && i !in s.co.runq
    && s.co.current == None && s.ctl == InLoop
  }

  ghost predicate OnCpuStill(s: Sys, s': Sys) {
    s'.co == s.co && s'.ctl == s.ctl && s'.mon.cur == s.mon.cur && s'.mon.rep == s.mon.rep
  }

  /** A timer tick that finds a tasklet on the CPU preempts it if and only if its guest waits for it. */
  lemma TickInTasklet(s: Sys, ps: seq<Policy>)
    requires Inv(s) && s.ctl == InTaskletCode && |ps| == |s.mon.gs|
    ensures var i, s' := s.mon.cur, Advance(s, ps, Timer(InTasklet(s.mon.cur)));
            && s.co.current == Some(i) && |s'.mon.gs| == |s.mon.gs|
            && (Preempted(s', i) <==> Waits(s, i))
            && (OnCpuStill(s, s') <==> !Waits(s, i))
  {
    BackoffKeepsInv(s);
    if Waits(s, s.mon.cur) { PreemptKeepsInv(Ticked(s)); }
    TimerKeepsInv(s, InTasklet(s.mon.cur));
  }

  /** A tick that finds the monitor or a secure service leaves the CPU where it is. */
  lemma TickElsewhere(s: Sys, ps: seq<Policy>, trap: Trap)
    requires Inv(s) && CanStep(s, Timer(trap)) && |ps| == |s.mon.gs| && (trap == InSecure || trap == InService)
    ensures OnCpuStill(s, Advance(s, ps, Timer(trap)))
  {}

  /** A tick that finds guest code always ends in a decision. */
  lemma TickInGuest(s: Sys, ps: seq<Policy>)
    requires Inv(s) && s.ctl == InGuestCode && |ps| == |s.mon.gs|
    ensures var s' := Advance(s, ps, Timer(InGuest));
            s'.ctl == Halted || s'.ctl.Deferred? || (s'.ctl == InGuestCode && s'.mon.gs != [])
  {
    TimerInGuestShape(s);
    DecisionsNeverPanic(TakenOff(s).mon, RunnableTasklets(s), true);
  }

  /** On every run: right after a tick that found it there, the tasklet of a waiting guest is off the CPU. */
  lemma NoTaskletOutlastsItsTick(ss: seq<Sys>, acts: seq<Step>, ps: seq<Policy>, k: nat)
    requires IsRun(ss, acts, ps) && k < |acts| && ss[k].ctl == InTaskletCode && acts[k].Timer?
    ensures ss[k].mon.cur < |ss[k].mon.gs| && ss[k].co.current == Some(ss[k].mon.cur)
    ensures Waits(ss[k], ss[k].mon.cur) ==> Preempted(ss[k + 1], ss[k].mon.cur)
  {
    AlwaysInv(ss, acts, ps, k);
    assert Moves(ss[k], ps, acts[k], ss[k + 1]);
    TickInTasklet(ss[k], ps);
  }

  // ---------------------------------------------------------------- decisions

  /** Guest i may be chosen: it has no delay, and it is ready or running, or waits for a runnable tasklet. */
  ghost predicate MayRun(s: Sys, i: nat)
    requires |s.co.state| == |s.mon.gs|
  {
    && i < |s.mon.gs| && s.mon.gs[i].delay == 0
    && (|| s.mon.gs[i].st == Ready || s.mon.gs[i].st == GuestState.Running
        || (s.mon.gs[i].st == WaitingHsm && s.co.state[i] == Runnable))
  }

  /** The guest d places behind the one that follows guest c, cyclically. */
  function Behind(c: nat, d: nat, n: nat): nat
    requires c < n && d < n
  {
    if c + 1 + d < n then c + 1 + d else c + 1 + d - n
  }

  lemma BehindIs(c: nat, d: nat, n: nat)
    requires c < n && d < n
    ensures Behind(c, d, n) == Cyc(Cyc(c + 1, n) + d, n) < n && Distance(Cyc(c + 1, n), Behind(c, d, n), n) == d
  {}

  /** None of the e guests behind guest c may run. */
  ghost predicate NobodyBehind(s: Sys, c: nat, e: nat)
    requires |s.co.state| == |s.mon.gs| && c < |s.mon.gs| && e <= |s.mon.gs|
  {
    forall d :: 0 <= d < e ==> !MayRun(s, Behind(c, d, |s.mon.gs|))
  }

  /** Guest c was entered, or its tasklet, which Handler mode leaves to Thread mode. */
  ghost predicate Entered(s': Sys, c: nat, handler: bool)
    requires |s'.co.state| == |s'.mon.gs|
  {
    && c < |s'.mon.gs| && s'.mon.gs[c].delay == 0
    && if s'.mon.gs[c].st == GuestState.Running then s'.ctl == InGuestCode && s'.mon.cur == c && s'.mon.rep == NonSecure
       else
         && s'.mon.gs[c].st == WaitingHsm
         && if handler then s'.ctl == Deferred(c) && s'.co.state[c] == Runnable
            else s'.ctl == InTaskletCode && s'.mon.cur == c && s'.mon.rep == Hsm && s'.co.current == Some(c)
  }

  /** The first guest behind c that may run was chosen, in place e; if there is none the monitor gave up. */
  ghost predicate Chose(s': Sys, c: nat, e: nat, handler: bool) {
    && |s'.co.state| == |s'.mon.gs| && c < |s'.mon.gs| && e <= |s'.mon.gs|
    && NobodyBehind(s', c, e)
    && if s'.ctl == Halted then e == |s'.mon.gs|
       else e < |s'.mon.gs| && Entered(s', Behind(c, e, |s'.mon.gs|), handler)
  }

  lemma ScanIsFirst(s: Sys) returns (e: nat)
    requires Shape(s)
    ensures var n, start := |s.mon.gs|, Cyc(s.mon.cur + 1, |s.mon.gs|);
            var r := FindFrom(s.mon.gs, RunnableTasklets(s), start, 0);
            && e <= n && NobodyBehind(s, s.mon.cur, e)
            && if r == n then e == n else r < n && e < n && r == Behind(s.mon.cur, e, n) && MayRun(s, r)
  {
    var n, start, hsm := |s.mon.gs|, Cyc(s.mon.cur + 1, |s.mon.gs|), RunnableTasklets(s);
    FindFromFirst(s.mon.gs, hsm, start, 0);
    var r := FindFrom(s.mon.gs, hsm, start, 0);
    e := if r == n then n else Distance(start, r, n);
    if r < n { BehindIs(s.mon.cur, e, n); }
    forall d | 0 <= d < e ensures !MayRun(s, Behind(s.mon.cur, d, n)) {
      BehindIs(s.mon.cur, d, n);
      assert !Candidate(s.mon.gs, hsm, start, d);
    }
  }

  /** Everybody but guest r is as before, and so is r's delay. */
  ghost predicate OnlyEnters(s: Sys, s': Sys, r: nat) {
    && |s'.mon.gs| == |s.mon.gs| == |s.co.state| == |s'.co.state|
    && forall i :: 0 <= i < |s.mon.gs| && i != r ==> s'.mon.gs[i] == s.mon.gs[i] && s'.co.state[i] == s.co.state[i]
  }

  lemma ObeyEnters(s: Sys, handler: bool)
    requires Inv(s) && s.ctl == InLoop
    ensures var mv := ScheduleNext(s.mon, RunnableTasklets(s), handler);
            (mv.1.EnterTasklet? ==> mv.1.g < |s.co.state|)
    ensures var r := FindFrom(s.mon.gs, RunnableTasklets(s), Cyc(s.mon.cur + 1, |s.mon.gs|), 0);
            var s' := Obey(s, ScheduleNext(s.mon, RunnableTasklets(s), handler));
            && OnlyEnters(s, s', r)
            && if r == |s.mon.gs| then s'.ctl == Halted else s'.ctl != Halted && Entered(s', r, handler)
  {
    DecisionsNeverPanic(s.mon, RunnableTasklets(s), handler);
    var r := FindFrom(s.mon.gs, RunnableTasklets(s), Cyc(s.mon.cur + 1, |s.mon.gs|), 0);
    if r < |s.mon.gs| { assert GuestOk(s, r); }
  }

  lemma ObeyChooses(s: Sys, handler: bool) returns (e: nat)
    requires Inv(s) && s.ctl == InLoop
    ensures var mv := ScheduleNext(s.mon, RunnableTasklets(s), handler);
            (mv.1.EnterTasklet? ==> mv.1.g < |s.co.state|) && Chose(Obey(s, mv), s.mon.cur, e, handler)
  {
    ObeyEnters(s, handler);
    e := ScanIsFirst(s);
    var n := |s.mon.gs|;
    var s' := Obey(s, ScheduleNext(s.mon, RunnableTasklets(s), handler));
    forall d | 0 <= d < e ensures !MayRun(s', Behind(s.mon.cur, d, n)) {
      assert !MayRun(s, Behind(s.mon.cur, d, n));
    }
  }

  /** A round of the monitor's loop chooses the first guest behind the current one that may run. */
  lemma TurnChooses(s: Sys, ps: seq<Policy>) returns (e: nat)
    requires Inv(s) && s.ctl == InLoop && |ps| == |s.mon.gs|
    ensures Chose(Advance(s, ps, LoopTurn), s.mon.cur, e, false)
  {
    e := ObeyChooses(s, false);
  }

  /** So does the timer that interrupts guest code, after the guest was saved and delays counted down. */
  lemma TickChooses(s: Sys, ps: seq<Policy>) returns (e: nat)
    requires Inv(s) && s.ctl == InGuestCode && |ps| == |s.mon.gs|
    ensures Chose(Advance(s, ps, Timer(InGuest)), s.mon.cur, e, true)
  {
    SaveKeepsInv(s);
    BackoffKeepsInv(s.(mon := SaveRunning(s.mon), ctl := InLoop));
    TimerInGuestShape(s);
    assert RunnableTasklets(TakenOff(s)) == RunnableTasklets(s);
    e := ObeyChooses(TakenOff(s), true);
  }

  /** The state in which the decision after a guest fault is taken. */
  ghost function Punished(s: Sys, ps: seq<Policy>): (t: Sys)
    requires Shape(s) && |ps| == |s.mon.gs|
    ensures |t.mon.gs| == |s.mon.gs| && t.mon.cur == s.mon.cur
  {
    var i, m := s.mon.cur, Punish(s.mon, ps);
    var t := s.(mon := m, ctl := InLoop);
    if m.gs[i].st == Restarting && ps[i].clears then t.(srv := s.srv[i := Cleared(s.srv[i])]) else t
  }

  lemma FaultIsDecision(s: Sys, ps: seq<Policy>)
    requires Inv(s) && s.ctl == InGuestCode && |ps| == |s.mon.gs|
    ensures var t := Punished(s, ps);
            var mv := ScheduleNext(t.mon, RunnableTasklets(t), true);
            && Inv(t) && (mv.1.EnterTasklet? ==> mv.1.g < |t.co.state|)
            && FaultStep(s, ps) == Obey(t, mv)
  {
    PunishKeepsInv(s, ps);
    assert RunnableTasklets(Punished(s, ps)) == RunnableTasklets(s);
    DecisionsNeverPanic(Punish(s.mon, ps), RunnableTasklets(s), true);
  }

  /** So does a guest fault, after the guest was dealt with. */
  lemma FaultChooses(s: Sys, ps: seq<Policy>) returns (e: nat)
    requires Inv(s) && s.ctl == InGuestCode && |ps| == |s.mon.gs|
    ensures Chose(Advance(s, ps, GuestFaults), s.mon.cur, e, true)
  {
    FaultIsDecision(s, ps);
    e := ObeyChooses(Punished(s, ps), true);
  }

  // ---------------------------------------------------------------- guests

  /** A guest across a timer tick: a delay counts down, and when it ends the guest is ready; one that runs
      is made ready if it is `saved`; the counters stay. */
  ghost predicate TickedGuest(g: Guest, g': Guest, saved: bool) {
    && g'.restarts == g.restarts && g'.first == g.first
    && g'.delay == (if g.delay > 0 then g.delay - 1 else 0)
    && g'.st == if (saved && g.st == GuestState.Running) || (g.st == Restarting && g.delay == 1) then Ready else g.st
  }

  /** A guest that is entered is running; it was ready. */
  ghost predicate EnteredGuest(t: Guest, g': Guest) {
    t.st == Ready && t.delay == 0 && g' == Guest(GuestState.Running, 0, t.restarts, t.first)
  }

  lemma TakenOffTicks(s: Sys, i: nat)
    requires Inv(s) && s.ctl == InGuestCode && i < |s.mon.gs|
    ensures |TakenOff(s).mon.gs| == |s.mon.gs| && TickedGuest(s.mon.gs[i], TakenOff(s).mon.gs[i], true)
  {
    assert GuestOk(s, i);
  }

  lemma EntersReady(s: Sys, handler: bool, i: nat)
    requires Inv(s) && s.ctl == InLoop && i < |s.mon.gs|
    ensures var mv := ScheduleNext(s.mon, RunnableTasklets(s), handler);
            (mv.1.EnterTasklet? ==> mv.1.g < |s.co.state|)
    ensures var s' := Obey(s, ScheduleNext(s.mon, RunnableTasklets(s), handler));
            && |s'.mon.gs| == |s.mon.gs|
            && if RunsCode(s', i) then EnteredGuest(s.mon.gs[i], s'.mon.gs[i]) else s'.mon.gs[i] == s.mon.gs[i]
  {
    DecisionsNeverPanic(s.mon, RunnableTasklets(s), handler);
    assert GuestOk(s, i);
  }

  /** A tick that interrupts guest code, for every guest: it is ticked, and entered if chosen. */
  lemma TickInGuestOnGuests(s: Sys, ps: seq<Policy>, i: nat) returns (t: Guest)
    requires Inv(s) && s.ctl == InGuestCode && |ps| == |s.mon.gs| && i < |s.mon.gs|
    ensures var s' := Advance(s, ps, Timer(InGuest));
            && |s'.mon.gs| == |s.mon.gs| && TickedGuest(s.mon.gs[i], t, true)
            && if RunsCode(s', i) then EnteredGuest(t, s'.mon.gs[i]) else s'.mon.gs[i] == t
  {
    SaveKeepsInv(s);
    BackoffKeepsInv(s.(mon := SaveRunning(s.mon), ctl := InLoop));
    TimerInGuestShape(s);
    TakenOffTicks(s, i);
    assert RunnableTasklets(TakenOff(s)) == RunnableTasklets(s);
    EntersReady(TakenOff(s), true, i);
    t := TakenOff(s).mon.gs[i];
  }

  /** Any other tick: nobody is saved or entered, and that of a secure service touches no guest at all. */
  lemma OtherTickOnGuests(s: Sys, ps: seq<Policy>, trap: Trap, i: nat)
    requires Inv(s) && CanStep(s, Timer(trap)) && trap != InGuest && |ps| == |s.mon.gs| && i < |s.mon.gs|
    ensures var s' := Advance(s, ps, Timer(trap));
            && |s'.mon.gs| == |s.mon.gs|
            && if trap == InService then s'.mon.gs[i] == s.mon.gs[i] else TickedGuest(s.mon.gs[i], s'.mon.gs[i], false)
  {
    assert GuestOk(s, i);
  }

  /** Every tick counts, on 32 bits. */
  lemma TickCounts(s: Sys, ps: seq<Policy>, trap: Trap)
    requires Inv(s) && CanStep(s, Timer(trap)) && |ps| == |s.mon.gs|
    ensures Advance(s, ps, Timer(trap)).mon.ticks as int == (s.mon.ticks + 1) % 0x1_0000_0000
  {
    TimerOnGuest(s, trap, s.mon.cur);
  }

  /** A fault touches the guest itself and the one entered next, nobody else. */
  lemma FaultOnOthers(s: Sys, ps: seq<Policy>, i: nat)
    requires Inv(s) && s.ctl == InGuestCode && |ps| == |s.mon.gs| && i < |s.mon.gs| && i != s.mon.cur
    ensures var s' := Advance(s, ps, GuestFaults);
            && |s'.mon.gs| == |s.mon.gs|
            && if RunsCode(s', i) then EnteredGuest(s.mon.gs[i], s'.mon.gs[i]) else s'.mon.gs[i] == s.mon.gs[i]
  {
    FaultIsDecision(s, ps);
    EntersReady(Punished(s, ps), true, i);
  }

  /** The guest that faults is given up or restarted, whoever is entered next; only a restart clears its
      request and response headers, if its policy says so; tasklets and lock are left alone. */
  lemma FaultOnItself(s: Sys, ps: seq<Policy>)
    requires Inv(s) && s.ctl == InGuestCode && |ps| == |s.mon.gs|
    ensures var i, s' := s.mon.cur, Advance(s, ps, GuestFaults);
            && |s'.mon.gs| == |s.mon.gs| && s'.lock == s.lock && s'.co == s.co && s'.mon.ticks == s.mon.ticks
            && (s'.mon.gs[i].st == GuestState.Faulted || s'.mon.gs[i].st == Restarting)
            && var v := s.srv[i];
               s'.srv == if s'.mon.gs[i].st == Restarting && ps[i].clears then s.srv[i := Server(v.ready, 0, 0, v.last, 0, v.pc)]
                         else s.srv
  {
    FaultIsDecision(s, ps);
    DecisionOnGuest(s, Punish(s.mon, ps), RunnableTasklets(s), true, s.mon.cur);
    DecisionsNeverPanic(Punish(s.mon, ps), RunnableTasklets(s), true);
  }

  /** A round of the loop touches the guest entered, nobody else. */
  lemma TurnOnGuests(s: Sys, ps: seq<Policy>, i: nat)
    requires Inv(s) && s.ctl == InLoop && |ps| == |s.mon.gs| && i < |s.mon.gs|
    ensures var s' := Advance(s, ps, LoopTurn);
            && |s'.mon.gs| == |s.mon.gs|
            && if RunsCode(s', i) then EnteredGuest(s.mon.gs[i], s'.mon.gs[i]) else s'.mon.gs[i] == s.mon.gs[i]
  {
    EntersReady(s, false, i);
  }

  // ---------------------------------------------------------------- requests and tasklets

  /** A submit is taken if and only if the service is up and the size fits a slot; then the guest waits, and
      its tasklet, if it was blocked, is runnable and last in the queue. Nothing else changes. */
  lemma SubmitOpens(s: Sys, ps: seq<Policy>, size: u16)
    requires Inv(s) && s.ctl == InGuestCode && |ps| == |s.mon.gs|
    ensures var i, s' := s.mon.cur, Advance(s, ps, Submit(size));
            if !(s.srv[i].ready && 1 <= size <= 248) then s' == s
            else
              && s' == s.(mon := s'.mon, co := s'.co)
              && s'.mon == s.mon.(gs := s.mon.gs[i := s.mon.gs[i].(st := WaitingHsm)])
              && s'.co == if s.co.state[i] == Blocked then s.co.(state := s.co.state[i := Runnable], runq := s.co.runq + [i])
                          else s.co
  {
    assert GuestOk(s, s.mon.cur);
  }

  /** The running tasklet blocks: it is off the CPU, and nobody else is touched. */
  ghost predicate Blocks(s: Sys, s': Sys, i: nat) {
    && i < |s.co.state| && s'.co.current == None && s'.ctl == InLoop
    && s'.co.state == s.co.state[i := Blocked] && s'.co.runq == s.co.runq && s'.co.parked == s.co.parked
  }

  /** A receive: with no new counter value the tasklet blocks and nothing else changes; a new one is noted,
      and the request is taken up if its length fits, or dropped. */
  lemma ReceiveDoes(s: Sys, ps: seq<Policy>)
    requires Inv(s) && At(s, AtRecv) && |ps| == |s.mon.gs|
    ensures var i, v, s' := s.mon.cur, s.srv[s.mon.cur], Advance(s, ps, Recv);
            && s'.mon == s.mon && s'.lock == s.lock
            && if v.notify == v.last then Blocks(s, s', i) && s'.srv == s.srv
               else if v.len > 248 then Blocks(s, s', i) && s'.srv == s.srv[i := Server(v.ready, v.notify, v.len, v.notify, v.resp, AtRecv)]
               else OnCpuStill(s, s') && s'.srv == s.srv[i := Server(v.ready, v.notify, v.len, v.notify, v.resp, Serving)]
  {}

  /** An acquire takes a free lock, or joins the end of the line and blocks. */
  lemma AcquireDoes(s: Sys, ps: seq<Policy>)
    requires Inv(s) && At(s, Serving) && |ps| == |s.mon.gs|
    ensures var i, s' := s.mon.cur, Advance(s, ps, Acquires);
            && s'.mon == s.mon
            && if s.lock.holder.None? then
                 OnCpuStill(s, s') && s'.lock.holder == Some(i) && s'.lock.waiters == s.lock.waiters && s'.srv[i].pc == Locked
               else
                 && Blocks(s, s', i) && s'.lock.holder == s.lock.holder && s'.lock.waiters == s.lock.waiters + [i]
                 && s'.srv[i].pc == InAcquire
  {}

  /** The lock passes to the first in line, who is runnable and last in the queue, or is free. */
  ghost predicate Passes(s: Sys, s': Sys) {
    if s.lock.waiters == [] then s'.lock.holder == None && s'.lock.waiters == [] && s'.co == s.co
    else
      var w := s.lock.waiters[0];
      && s'.lock.holder == Some(w) && s'.lock.waiters == s.lock.waiters[1..] && w < |s.co.state|
      && s'.co == s.co.(state := s.co.state[w := Runnable], runq := s.co.runq + [w])
  }

  lemma ReleaseDoes(s: Sys, ps: seq<Policy>)
    requires Inv(s) && At(s, Locked) && |ps| == |s.mon.gs|
    ensures var s' := Advance(s, ps, Releases);
            Passes(s, s') && s'.mon == s.mon && s'.ctl == s.ctl && s'.srv == s.srv[s.mon.cur := s.srv[s.mon.cur].(pc := Serving)]
  {
    assert LockingOk(s, s.mon.cur);
  }

  /** An answer: the response counter goes up by one on 16 bits, and a waiting guest is ready. */
  ghost predicate Answered(s: Sys, s': Sys, i: nat)
    requires Shape(s) && i < |s.mon.gs|
  {
    && |s'.srv| == |s.srv| && |s'.mon.gs| == |s.mon.gs|
    && s'.srv[i].resp as int == (s.srv[i].resp + 1) % 0x1_0000
    && s'.mon == s.mon.(gs := s.mon.gs[i := s.mon.gs[i].(st := if Waits(s, i) then Ready else s.mon.gs[i].st)])
    && s'.srv == s.srv[i := s'.srv[i]]
  }

  lemma SendDoes(s: Sys, ps: seq<Policy>)
    requires Inv(s) && At(s, Serving) && |ps| == |s.mon.gs|
    ensures var i, s' := s.mon.cur, Advance(s, ps, Sends);
            Answered(s, s', i) && OnCpuStill(s, s') && s'.lock == s.lock && s'.srv[i].pc == AtRecv && s'.srv[i].last == s.srv[i].last
  {}

  /** A tasklet's fault: its guest is answered, its service is down for good, it is off the CPU and out of
      the queue, and a lock it holds is passed on. */
  lemma TaskletFaultDoes(s: Sys, ps: seq<Policy>)
    requires Inv(s) && s.ctl == InTaskletCode && |ps| == |s.mon.gs|
    ensures var i, s' := s.mon.cur, Advance(s, ps, TaskletFaults);
            && Answered(s, s', i) && !s'.srv[i].ready && s'.ctl == InLoop && s'.co.current == None
            && i < |s'.co.state| && s'.co.state[i] == CoState.Faulted
            && if s.lock.holder != Some(i) then s'.lock == s.lock
               else if s.lock.waiters == [] then s'.lock.holder == None && s'.lock.waiters == []
               else s'.lock.holder == Some(s.lock.waiters[0]) && s'.lock.waiters == s.lock.waiters[1..]
  {}

  /** Thread mode enters the tasklet that was deferred to it. */
  lemma ResumeDoes(s: Sys, ps: seq<Policy>)
    requires Inv(s) && s.ctl.Deferred? && |ps| == |s.mon.gs|
    ensures var g, s' := s.ctl.g, Advance(s, ps, ResumeDeferred);
            && s'.ctl == InTaskletCode && s'.co.current == Some(g) && s'.mon.cur == g && s'.mon.rep == Hsm
            && s'.mon.gs == s.mon.gs && s'.lock == s.lock && s'.srv == s.srv
  {
    EnterTaskletKeepsInv(s, s.ctl.g);
  }
}
