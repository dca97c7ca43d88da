/** Guests, their secure tasklets and the monitor together: the HSM request path of
    src/monitor.c, src/services/wolfhsm/wt_hsm.c, src/arch/armv8m/cmse_transport.c and the
    platform's submit and fault entries, as one state machine. Guest i, tasklet i and coroutine i
    belong together. */
module HsmSystem {
  import opened Base
  import opened Coroutine
  import opened Mutex
  import opened Monitor

  /** Bytes a request slot can hold. */
  const SLOT_BYTES := 248

  /** Where a service tasklet stands: before its next receive, working on a request, inside acquire,
      holding the lock, or abandoned after a fault. */
  datatype Pc = AtRecv | Serving | InAcquire | Locked | Gone

  /** The service of one guest: its ready bit, the request counter and length the guest writes, the
      counter of the request received last, and the response counter. */
  datatype Server = Server(ready: bool, notify: u16, len: u16, last: u16, resp: u16, pc: Pc)

  /** Who has the CPU: guest code, a tasklet, the monitor's loop in Thread mode, the same about to
      resume a tasklet, nobody any more, or the panic handler. */
  datatype Ctl = InGuestCode | InTaskletCode | InLoop | Deferred(g: nat) | Halted | Panicked

  datatype Sys = Sys(mon: Mon, srv: seq<Server>, co: Sched, lock: Lock, ctl: Ctl)

  datatype Step =
    | Timer(trap: Trap)                  // secure timer interrupt
    | GuestFaults                        // the running guest faults
    | GuestWrites(notify: u16, len: u16) // the running guest writes its request header
    | Submit(size: u16)                  // ... and asks for service
    | ResumeDeferred                     // Thread mode resumes the deferred tasklet
    | LoopTurn                           // one round of the monitor's loop
    | Recv | Acquires | AcquireReturns | Releases | Sends
    | TaskletFaults

  // ---------------------------------------------------------------- steps

  /** Which tasklets the monitor finds runnable. */
  ghost function RunnableTasklets(s: Sys): (r: seq<bool>)
    requires |s.co.state| == |s.mon.gs|
    ensures |r| == |s.mon.gs|
    ensures forall i :: 0 <= i < |r| ==> r[i] == (s.co.state[i] == Runnable)
  {
    seq(|s.mon.gs|, i requires 0 <= i < |s.mon.gs| => s.co.state[i] == Runnable)
  }

  ghost predicate Shape(s: Sys) {
    && 0 < |s.mon.gs| == |s.srv| == |s.co.state| < CO_MAX
    && s.mon.cur < |s.mon.gs|
    && InRange(s.co, s.lock)
    && (s.ctl == InTaskletCode ==> s.co.current == Some(s.mon.cur))
    && (s.ctl.Deferred? ==> s.ctl.g < |s.mon.gs|)
  }

  /** The pc of the tasklet on the CPU. */
  ghost predicate At(s: Sys, pc: Pc)
    requires Shape(s)
  {
    s.ctl == InTaskletCode && s.srv[s.mon.cur].pc == pc
  }

  ghost predicate CanStep(s: Sys, a: Step)
    requires Shape(s)
  {
    match a
    case Timer(trap) =>
      (match s.ctl
       case InGuestCode => !trap.InTasklet?
       case InTaskletCode => trap == InTasklet(s.mon.cur)
       case InLoop => trap == InSecure
       case Deferred(_) => trap == InSecure
       case _ => false)
    case GuestFaults => s.ctl == InGuestCode
    case GuestWrites(_, _) => s.ctl == InGuestCode
    case Submit(_) => s.ctl == InGuestCode
    case ResumeDeferred => s.ctl.Deferred?
    case LoopTurn => s.ctl == InLoop
    case Recv => At(s, AtRecv)
    case Acquires => At(s, Serving)
    case AcquireReturns => At(s, InAcquire)
    case Releases => At(s, Locked)
    case Sends => At(s, Serving)
    case TaskletFaults => s.ctl == InTaskletCode
  }

  /** Control after a scheduling decision; entering a tasklet runs its coroutine. */
  ghost function Obey(s: Sys, mv: (Mon, Verdict)): Sys
    requires Shape(s) && (mv.1.EnterTasklet? ==> mv.1.g < |s.co.state|)
  {
    var (m, v) := mv;
    match v
    case AllFaulted => s.(mon := m, ctl := Halted)
    case EnterGuest(_) => s.(mon := m, ctl := InGuestCode)
    case Defer(g) => s.(mon := m, ctl := Deferred(g))
    case EnterTasklet(g) =>
      var (co, ran) := Run(s.co, g);
      s.(mon := m, co := co, ctl := if ran then InTaskletCode else InLoop)
    case Panic => s.(mon := m, ctl := Panicked)
  }

  ghost function TimerStep(s: Sys, trap: Trap): Sys
    requires Shape(s) && CanStep(s, Timer(trap))
  {
    var (m, e) := OnTimer(s.mon, RunnableTasklets(s), trap);
    DecisionBounded(s.mon, RunnableTasklets(s), trap);
    match e
    case Back => s.(mon := m)
    case Preempts => s.(mon := m, co := Preempt(s.co).0, ctl := if Preempt(s.co).1 then InLoop else s.ctl)
    case Decides(v) => Obey(s, (m, v))
  }

  lemma DecisionBounded(m: Mon, hsm: seq<bool>, trap: Trap)
    requires |hsm| == |m.gs| && m.cur < |m.gs|
    ensures var e := OnTimer(m, hsm, trap).1;
            e.Decides? ==> !e.v.EnterTasklet?
  {}

  /** The restart-clear window of a guest contains its request and response headers. */
  ghost function Cleared(v: Server): Server {
    v.(notify := 0, len := 0, resp := 0)
  }

  ghost function FaultStep(s: Sys, ps: seq<Policy>): Sys
    requires Shape(s) && |ps| == |s.mon.gs|
  {
    var i := s.mon.cur;
    var m := Punish(s.mon, ps);
    var s1 := if m.gs[i].st == Restarting && ps[i].clears then s.(srv := s.srv[i := Cleared(s.srv[i])]) else s;
    Obey(s1, OnFault(s.mon, ps, RunnableTasklets(s)))
  }

  ghost function WriteStep(s: Sys, notify: u16, len: u16): Sys
    requires Shape(s)
  {
    var i := s.mon.cur;
    s.(srv := s.srv[i := s.srv[i].(notify := notify, len := len)])
  }

  /** WolfTrust_HSM_Submit_Impl: refused unless the service is ready and the size sensible. */
  ghost function SubmitStep(s: Sys, size: u16): Sys
    requires Shape(s)
  {
    var i := s.mon.cur;
    if !s.srv[i].ready || size == 0 || size > SLOT_BYTES then s
    else s.(mon := s.mon.(gs := s.mon.gs[i := RequestPending(s.mon.gs[i])]), co := Wake(s.co, i))
  }

  ghost function RecvStep(s: Sys): Sys
    requires Shape(s) && At(s, AtRecv)
  {
    var i := s.mon.cur;
    var v := s.srv[i];
    if v.notify == v.last then s.(co := Block(s.co), ctl := InLoop)
    else if v.len > SLOT_BYTES then
      s.(srv := s.srv[i := v.(last := v.notify)], co := Block(s.co), ctl := InLoop)
    else s.(srv := s.srv[i := v.(last := v.notify, pc := Serving)])
  }

  ghost function AcquireStep(s: Sys): Sys
    requires Shape(s) && At(s, Serving)
  {
    var i := s.mon.cur;
    var (co, lock, r) := Acquire(s.co, s.lock);
    match r
    case Waiting => s.(co := co, lock := lock, ctl := InLoop, srv := s.srv[i := s.srv[i].(pc := InAcquire)])
    case _ => s.(co := co, lock := lock, srv := s.srv[i := s.srv[i].(pc := Locked)])
  }

  ghost function MovePc(s: Sys, pc: Pc): Sys
    requires Shape(s)
  {
    s.(srv := s.srv[s.mon.cur := s.srv[s.mon.cur].(pc := pc)])
  }

  ghost function ReleaseStep(s: Sys): Sys
    requires Shape(s) && At(s, Locked)
  {
    var (co, lock, _) := Release(s.co, s.lock);
    MovePc(s.(co := co, lock := lock), Serving)
  }

  ghost function Answer(s: Sys, v: Server): Sys
    requires Shape(s)
  {
    var i := s.mon.cur;
    s.(mon := s.mon.(gs := s.mon.gs[i := ResponseReady(s.mon.gs[i])]),
       srv := s.srv[i := v.(resp := Inc16(v.resp))])
  }

  ghost function SendStep(s: Sys): Sys
    requires Shape(s) && At(s, Serving)
  {
    Answer(s, s.srv[s.mon.cur].(pc := AtRecv))
  }

  /** The fault path: the lock is dropped, the client gets an error response, the ready bit is
      cleared, and the coroutine is marked faulted. */
  ghost function TaskletFaultStep(s: Sys): Sys
    requires Shape(s) && s.ctl == InTaskletCode
  {
    var (co, lock) := Die(s.co, s.lock, s.mon.cur);
    Answer(s, s.srv[s.mon.cur].(ready := false, pc := Gone)).(co := co, lock := lock, ctl := InLoop)
  }

  ghost function LoopStep(s: Sys): Sys
    requires Shape(s)
  {
    Obey(s, ScheduleNext(s.mon, RunnableTasklets(s), false))
  }

  ghost function Advance(s: Sys, ps: seq<Policy>, a: Step): Sys
    requires Shape(s) && CanStep(s, a) && |ps| == |s.mon.gs|
  {
    match a
    case Timer(trap) => TimerStep(s, trap)
    case GuestFaults => FaultStep(s, ps)
    case GuestWrites(notify, len) => WriteStep(s, notify, len)
    case Submit(size) => SubmitStep(s, size)
    case ResumeDeferred => Obey(s, DispatchTasklet(s.mon, s.ctl.g))
    case LoopTurn => LoopStep(s)
    case Recv => RecvStep(s)
    case Acquires => AcquireStep(s)
    case AcquireReturns => MovePc(s, Locked)
    case Releases => ReleaseStep(s)
    case Sends => SendStep(s)
    case TaskletFaults => TaskletFaultStep(s)
  }

  // ---------------------------------------------------------------- invariant

  /** Is guest i's own code on the CPU? */
  ghost predicate RunsCode(s: Sys, i: int) {
    s.ctl == InGuestCode && s.mon.cur == i
  }

  ghost predicate Busy(pc: Pc) {
    pc == Serving || pc == InAcquire || pc == Locked
  }

  ghost predicate GuestOk(s: Sys, i: int)
    requires Shape(s) && 0 <= i < |s.mon.gs|
  {
    var g := s.mon.gs[i];
    && (g.st == GuestState.Running ==> RunsCode(s, i))
    && (g.delay > 0 ==> g.st == Restarting)
    && (g.st == WaitingHsm ==> s.srv[i].ready)
  }

  ghost predicate ServerOk(s: Sys, i: int)
    requires Shape(s) && 0 <= i < |s.mon.gs|
  {
    var v, st := s.srv[i], s.co.state[i];
    && (v.ready <==> st != CoState.Faulted)
    && (v.ready <==> v.pc != Gone)
    && (Busy(v.pc) ==> s.mon.gs[i].st == WaitingHsm && !RunsCode(s, i) && v.notify == v.last)
  }

  ghost predicate LockingOk(s: Sys, i: int)
    requires Shape(s) && 0 <= i < |s.mon.gs|
  {
    var v, st := s.srv[i], s.co.state[i];
    && (i in s.lock.waiters ==> v.pc == InAcquire)
    && (s.lock.holder == Some(i) ==> v.pc == InAcquire || v.pc == Locked)
    && (v.pc == InAcquire ==> i in s.lock.waiters || s.lock.holder == Some(i))
    && (v.pc == Locked ==> s.lock.holder == Some(i))
    && (st == Blocked ==> v.pc == AtRecv || i in s.lock.waiters)
  }

  ghost predicate CtlOk(s: Sys)
    requires Shape(s)
  {
    var i := s.mon.cur;
    match s.ctl
    case InGuestCode => s.co.current == None && s.mon.rep == NonSecure
                        && (s.mon.gs[i].st == GuestState.Running || s.mon.gs[i].st == WaitingHsm)
    case InTaskletCode => s.mon.rep == Hsm
                          && (s.mon.gs[i].st == WaitingHsm || (s.srv[i].pc == AtRecv && s.srv[i].notify == s.srv[i].last))
    case Deferred(g) => s.co.current == None && s.mon.gs[g].st == WaitingHsm && s.co.state[g] == Runnable
    case Panicked => false
    case _ => s.co.current == None
  }

  ghost predicate Inv(s: Sys) {
    && Shape(s)
    && LockOk(s.co, s.lock)
    && CtlOk(s)
    && (forall i {:trigger GuestOk(s, i)} :: 0 <= i < |s.mon.gs| ==> GuestOk(s, i))
    && (forall i {:trigger ServerOk(s, i)} :: 0 <= i < |s.mon.gs| ==> ServerOk(s, i))
    && (forall i {:trigger LockingOk(s, i)} :: 0 <= i < |s.mon.gs| ==> LockingOk(s, i))
  }

  // ---------------------------------------------------------------- preservation, step by step

  lemma EnterGuestKeepsInv(s: Sys, g: nat)
    requires Inv(s) && s.ctl == InLoop && g < |s.mon.gs|
    requires s.mon.gs[g].st == Ready && s.mon.gs[g].delay == 0
    ensures Inv(s.(mon := DispatchGuest(s.mon, g), ctl := InGuestCode))
  {
    var s' := s.(mon := DispatchGuest(s.mon, g), ctl := InGuestCode);
    forall i | 0 <= i < |s.mon.gs| ensures GuestOk(s', i) && ServerOk(s', i) && LockingOk(s', i) {
      assert GuestOk(s, i) && ServerOk(s, i) && LockingOk(s, i);
    }
  }

  lemma EnterTaskletKeepsInv(s: Sys, g: nat)
    requires Inv(s) && (s.ctl == InLoop || s.ctl.Deferred?) && g < |s.mon.gs|
    requires s.mon.gs[g].st == WaitingHsm && s.co.state[g] == Runnable
    ensures Run(s.co, g).1
    ensures var m := s.mon.(cur := g, rep := Hsm);
            Inv(s.(mon := m, co := Run(s.co, g).0, ctl := InTaskletCode))
  {
    assert Allowed(s.co, s.lock, CoAct(RunOp(g)));
    CoKeepsLockOk(s.co, s.lock, RunOp(g));
    var s' := s.(mon := s.mon.(cur := g, rep := Hsm), co := Run(s.co, g).0, ctl := InTaskletCode);
    forall i | 0 <= i < |s.mon.gs| ensures GuestOk(s', i) && ServerOk(s', i) && LockingOk(s', i) {
      assert GuestOk(s, i) && ServerOk(s, i) && LockingOk(s, i);
    }
  }

  /** A change of control in which nothing but the CPU's user changes. */
  lemma ControlKeepsInv(s: Sys, ctl: Ctl)
    requires Inv(s) && s.ctl == InLoop && (ctl == Halted || ctl.Deferred?)
    requires ctl.Deferred? ==> ctl.g < |s.mon.gs| && s.mon.gs[ctl.g].st == WaitingHsm && s.co.state[ctl.g] == Runnable
    ensures Inv(s.(ctl := ctl))
  {
    var s' := s.(ctl := ctl);
    forall i | 0 <= i < |s.mon.gs| ensures GuestOk(s', i) && ServerOk(s', i) && LockingOk(s', i) {
      assert GuestOk(s, i) && ServerOk(s, i) && LockingOk(s, i);
    }
  }

  lemma DecisionKeepsInv(s: Sys, handler: bool)
    requires Inv(s) && s.ctl == InLoop
    ensures var mv := ScheduleNext(s.mon, RunnableTasklets(s), handler);
            (mv.1.EnterTasklet? ==> mv.1.g < |s.co.state|) && Inv(Obey(s, mv))
  {
    var hsm := RunnableTasklets(s);
    DecisionsNeverPanic(s.mon, hsm, handler);
    var (m, v) := ScheduleNext(s.mon, hsm, handler);
    match v
    case AllFaulted => ControlKeepsInv(s, Halted);
    case EnterGuest(g) =>
      assert GuestOk(s, g);
      EnterGuestKeepsInv(s, g);
    case Defer(g) => ControlKeepsInv(s, Deferred(g));
    case EnterTasklet(g) => EnterTaskletKeepsInv(s, g);
    case Panic =>
  }

  ghost function TickOne(m: Mon): Mon {
    m.(ticks := if m.ticks == 0xFFFF_FFFF then 0 else m.ticks + 1)
  }

  lemma BackoffKeepsInv(s: Sys)
    requires Inv(s)
    ensures Inv(s.(mon := TickOne(s.mon).(gs := Backoff(s.mon.gs))))
    ensures Inv(s.(mon := TickOne(s.mon)))
  {
    var s1, s2 := s.(mon := TickOne(s.mon)), s.(mon := TickOne(s.mon).(gs := Backoff(s.mon.gs)));
    forall i | 0 <= i < |s.mon.gs|
      ensures GuestOk(s1, i) && ServerOk(s1, i) && LockingOk(s1, i)
      ensures s2.mon.gs[i].st == WaitingHsm <==> s.mon.gs[i].st == WaitingHsm
      ensures s2.mon.gs[i].st == GuestState.Running <==> s.mon.gs[i].st == GuestState.Running
      ensures GuestOk(s2, i) && ServerOk(s2, i) && LockingOk(s2, i)
    {
      assert GuestOk(s, i) && ServerOk(s, i) && LockingOk(s, i);
    }
  }

  /** Taking the CPU from guest code. */
  lemma SaveKeepsInv(s: Sys)
    requires Inv(s) && s.ctl == InGuestCode
    ensures Inv(s.(mon := SaveRunning(s.mon), ctl := InLoop))
  {
    var s' := s.(mon := SaveRunning(s.mon), ctl := InLoop);
    forall i | 0 <= i < |s.mon.gs| ensures GuestOk(s', i) && ServerOk(s', i) && LockingOk(s', i) {
      assert GuestOk(s, i) && ServerOk(s, i) && LockingOk(s, i);
    }
  }

  lemma PreemptKeepsInv(s: Sys)
    requires Inv(s) && s.ctl == InTaskletCode && s.mon.gs[s.mon.cur].st == WaitingHsm
    ensures Preempt(s.co).1 && Inv(s.(co := Preempt(s.co).0, ctl := InLoop))
  {
    CoKeepsLockOk(s.co, s.lock, PreemptOp);
    var s' := s.(co := Preempt(s.co).0, ctl := InLoop);
    forall i | 0 <= i < |s.mon.gs| ensures GuestOk(s', i) && ServerOk(s', i) && LockingOk(s', i) {
      assert GuestOk(s, i) && ServerOk(s, i) && LockingOk(s, i);
    }
  }

  ghost function Ticked(s: Sys): Sys {
    s.(mon := TickOne(s.mon).(gs := Backoff(s.mon.gs)))
  }

  lemma TimerInTasklet(s: Sys)
    requires Inv(s) && s.ctl == InTaskletCode
    ensures Inv(TimerStep(s, InTasklet(s.mon.cur)))
  {
    BackoffKeepsInv(s);
    var s1 := Ticked(s);
    if s1.mon.gs[s.mon.cur].st == WaitingHsm {
      PreemptKeepsInv(s1);
      assert TimerStep(s, InTasklet(s.mon.cur)) == s1.(co := Preempt(s.co).0, ctl := InLoop);
    } else {
      assert TimerStep(s, InTasklet(s.mon.cur)) == s1;
    }
  }

  /** The timer took the CPU from guest code; the guest's state is saved and a tick accounted. */
  ghost function TakenOff(s: Sys): Sys
    requires Shape(s)
  {
    Ticked(s.(mon := SaveRunning(s.mon), ctl := InLoop))
  }

  lemma TimerInGuestShape(s: Sys)
    requires Shape(s) && s.ctl == InGuestCode
    ensures Shape(TakenOff(s))
    ensures TimerStep(s, InGuest) == Obey(TakenOff(s), ScheduleNext(TakenOff(s).mon, RunnableTasklets(s), true))
  {
    var m := TakenOff(s).mon;
    assert OnTimer(s.mon, RunnableTasklets(s), InGuest) ==
      (ScheduleNext(m, RunnableTasklets(s), true).0, Decides(ScheduleNext(m, RunnableTasklets(s), true).1));
  }

  lemma TimerInGuest(s: Sys)
    requires Inv(s) && s.ctl == InGuestCode
    ensures Inv(TimerStep(s, InGuest))
  {
    SaveKeepsInv(s);
    BackoffKeepsInv(s.(mon := SaveRunning(s.mon), ctl := InLoop));
    assert RunnableTasklets(TakenOff(s)) == RunnableTasklets(s);
    DecisionKeepsInv(TakenOff(s), true);
    TimerInGuestShape(s);
  }

  lemma TimerKeepsInv(s: Sys, trap: Trap)
    requires Inv(s) && CanStep(s, Timer(trap))
    ensures Inv(TimerStep(s, trap))
  {
    match trap
    case InTasklet(g) => TimerInTasklet(s);
    case InService => BackoffKeepsInv(s);
    case InSecure => BackoffKeepsInv(s);
    case InGuest => TimerInGuest(s);
  }

  lemma PunishKeepsInv(s: Sys, ps: seq<Policy>)
    requires Inv(s) && s.ctl == InGuestCode && |ps| == |s.mon.gs|
    ensures Inv(s.(mon := Punish(s.mon, ps), ctl := InLoop))
    ensures var i := s.mon.cur; Inv(s.(mon := Punish(s.mon, ps), ctl := InLoop, srv := s.srv[i := Cleared(s.srv[i])]))
  {
    var c := s.mon.cur;
    var s1 := s.(mon := Punish(s.mon, ps), ctl := InLoop);
    var s2 := s1.(srv := s.srv[c := Cleared(s.srv[c])]);
    forall i | 0 <= i < |s.mon.gs|
      ensures GuestOk(s1, i) && ServerOk(s1, i) && LockingOk(s1, i)
      ensures GuestOk(s2, i) && ServerOk(s2, i) && LockingOk(s2, i)
    {
      assert GuestOk(s, i) && ServerOk(s, i) && LockingOk(s, i);
    }
  }

  lemma FaultKeepsInv(s: Sys, ps: seq<Policy>)
    requires Inv(s) && s.ctl == InGuestCode && |ps| == |s.mon.gs|
    ensures Inv(FaultStep(s, ps))
  {
    PunishKeepsInv(s, ps);
    var i := s.mon.cur;
    var s1 := s.(mon := Punish(s.mon, ps), ctl := InLoop);
    var s2 := if s1.mon.gs[i].st == Restarting && ps[i].clears then s1.(srv := s.srv[i := Cleared(s.srv[i])]) else s1;
    assert RunnableTasklets(s2) == RunnableTasklets(s);
    DecisionKeepsInv(s2, true);
  }

  lemma WriteKeepsInv(s: Sys, notify: u16, len: u16)
    requires Inv(s) && s.ctl == InGuestCode
    ensures Inv(WriteStep(s, notify, len))
  {
    var s' := WriteStep(s, notify, len);
    forall i | 0 <= i < |s.mon.gs| ensures GuestOk(s', i) && ServerOk(s', i) && LockingOk(s', i) {
      assert GuestOk(s, i) && ServerOk(s, i) && LockingOk(s, i);
    }
  }

  /** The guest on the CPU is not in anybody's wait list. */
  lemma SubmitterDoesNotWait(s: Sys)
    requires Inv(s) && s.ctl == InGuestCode
    ensures s.mon.cur !in s.lock.waiters
  {
    assert LockingOk(s, s.mon.cur) && ServerOk(s, s.mon.cur);
  }

  lemma SubmitKeepsInv(s: Sys, size: u16)
    requires Inv(s) && s.ctl == InGuestCode
    ensures Inv(SubmitStep(s, size))
  {
    var c := s.mon.cur;
    SubmitterDoesNotWait(s);
    if s.srv[c].ready && 0 < size <= SLOT_BYTES {
      assert Allowed(s.co, s.lock, CoAct(WakeOp(c)));
      CoKeepsLockOk(s.co, s.lock, WakeOp(c));
      var s' := SubmitStep(s, size);
      forall i | 0 <= i < |s.mon.gs| ensures GuestOk(s', i) && ServerOk(s', i) && LockingOk(s', i) {
        assert GuestOk(s, i) && ServerOk(s, i) && LockingOk(s, i);
      }
    }
  }

  lemma RecvKeepsInv(s: Sys)
    requires Inv(s) && At(s, AtRecv)
    ensures Inv(RecvStep(s))
  {
    CoKeepsLockOk(s.co, s.lock, BlockOp);
    var s' := RecvStep(s);
    forall i | 0 <= i < |s.mon.gs| ensures GuestOk(s', i) && ServerOk(s', i) && LockingOk(s', i) {
      assert GuestOk(s, i) && ServerOk(s, i) && LockingOk(s, i);
    }
  }

  lemma AcquireKeepsInv(s: Sys)
    requires Inv(s) && At(s, Serving)
    ensures Inv(AcquireStep(s))
  {
    var c := s.mon.cur;
    assert LockingOk(s, c) && ServerOk(s, c);
    AcquireKeepsLockOk(s.co, s.lock);
    var s' := AcquireStep(s);
    assert forall w :: w in s.lock.waiters + [c] <==> w in s.lock.waiters || w == c;
    forall i | 0 <= i < |s.mon.gs| ensures GuestOk(s', i) && ServerOk(s', i) && LockingOk(s', i) {
      assert GuestOk(s, i) && ServerOk(s, i) && LockingOk(s, i);
    }
  }

  /** Acquire comes back as the holder only. */
  lemma AcquireReturnsAsHolder(s: Sys)
    requires Inv(s) && At(s, InAcquire)
    ensures s.lock.holder == Some(s.mon.cur)
  {
    assert LockingOk(s, s.mon.cur);
  }

  lemma AcquireReturnsKeepsInv(s: Sys)
    requires Inv(s) && At(s, InAcquire)
    ensures Inv(MovePc(s, Locked))
  {
    AcquireReturnsAsHolder(s);
    var s' := MovePc(s, Locked);
    forall i | 0 <= i < |s.mon.gs| ensures GuestOk(s', i) && ServerOk(s', i) && LockingOk(s', i) {
      assert GuestOk(s, i) && ServerOk(s, i) && LockingOk(s, i);
    }
  }

  /** What a hand-off by coroutine c does to the others. */
  lemma HandOffEffect(co: Sched, lock: Lock)
    requires LockOk(co, lock)
    ensures var (co', lock') := HandOff(co, lock);
            && LockOk(co', lock') && |co'.state| == |co.state| && co'.current == co.current
            && forall i {:trigger co'.state[i]} :: 0 <= i < |co.state| ==>
                 if lock'.holder == Some(i) then i in lock.waiters && co'.state[i] == Runnable && i !in lock'.waiters
                 else co'.state[i] == co.state[i] && (i in lock'.waiters <==> i in lock.waiters)
  {
    HandOffKeepsLockOk(co, lock);
    if lock.waiters != [] {
      assert forall w :: w in lock.waiters <==> w == lock.waiters[0] || w in lock.waiters[1..];
    }
  }

  lemma ReleaseKeepsInv(s: Sys)
    requires Inv(s) && At(s, Locked)
    ensures Inv(ReleaseStep(s))
  {
    assert LockingOk(s, s.mon.cur) && ServerOk(s, s.mon.cur);
    HandOffEffect(s.co, s.lock);
    var s' := ReleaseStep(s);
    forall i | 0 <= i < |s.mon.gs| ensures GuestOk(s', i) && ServerOk(s', i) && LockingOk(s', i) {
      assert GuestOk(s, i) && ServerOk(s, i) && LockingOk(s, i);
      assert s'.co.state[i] == s.co.state[i] || s'.lock.holder == Some(i);
    }
  }

  lemma SendKeepsInv(s: Sys)
    requires Inv(s) && At(s, Serving)
    ensures Inv(SendStep(s))
  {
    assert ServerOk(s, s.mon.cur);
    var s' := SendStep(s);
    forall i | 0 <= i < |s.mon.gs| ensures GuestOk(s', i) && ServerOk(s', i) && LockingOk(s', i) {
      assert GuestOk(s, i) && ServerOk(s, i) && LockingOk(s, i);
    }
  }

  lemma TaskletFaultKeepsInv(s: Sys)
    requires Inv(s) && s.ctl == InTaskletCode
    ensures Inv(TaskletFaultStep(s))
  {
    var c := s.mon.cur;
    assert LockingOk(s, c) && ServerOk(s, c);
    DieKeepsLockOk(s.co, s.lock);
    if s.lock.holder == Some(c) { HandOffEffect(s.co, s.lock); }
    var s' := TaskletFaultStep(s);
    forall i | 0 <= i < |s.mon.gs| ensures GuestOk(s', i) && ServerOk(s', i) && LockingOk(s', i) {
      assert GuestOk(s, i) && ServerOk(s, i) && LockingOk(s, i);
      DeathEffect(s.co, s.lock, c, i);
    }
  }

  /** What the death of the running coroutine c does to coroutine i. */
  lemma DeathEffect(co: Sched, lock: Lock, c: nat, i: nat)
    requires LockOk(co, lock) && co.current == Some(c) && i < |co.state|
    ensures var (co', lock') := Die(co, lock, c);
            && (i == c ==> co'.state[i] == CoState.Faulted && lock'.holder != Some(i) && i !in lock'.waiters)
            && (i != c ==>
                  if lock'.holder == Some(i) && lock.holder != Some(i) then
                    i in lock.waiters && co'.state[i] == Runnable && i !in lock'.waiters
                  else co'.state[i] == co.state[i] && (i in lock'.waiters <==> i in lock.waiters)
                       && (lock'.holder == Some(i) <==> lock.holder == Some(i)))
  {
    if lock.holder == Some(c) { HandOffEffect(co, lock); }
  }

  lemma StepKeepsInv(s: Sys, ps: seq<Policy>, a: Step)
    requires Inv(s) && CanStep(s, a) && |ps| == |s.mon.gs|
    ensures Inv(Advance(s, ps, a))
  {
    match a
    case Timer(trap) => TimerKeepsInv(s, trap);
    case GuestFaults => FaultKeepsInv(s, ps);
    case GuestWrites(notify, len) => WriteKeepsInv(s, notify, len);
    case Submit(size) => SubmitKeepsInv(s, size);
    case ResumeDeferred => EnterTaskletKeepsInv(s, s.ctl.g);
    case LoopTurn => DecisionKeepsInv(s, false);
    case Recv => RecvKeepsInv(s);
    case Acquires => AcquireKeepsInv(s);
    case AcquireReturns => AcquireReturnsKeepsInv(s);
    case Releases => ReleaseKeepsInv(s);
    case Sends => SendKeepsInv(s);
    case TaskletFaults => TaskletFaultKeepsInv(s);
  }
}
