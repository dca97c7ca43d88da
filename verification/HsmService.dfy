/** The per-guest service table (src/services/wolfhsm/wt_hsm.c) with the scheduler, mutex and partition
    objects. `Agrees` ties the objects to a state of HsmSystem; each entry performs exactly one kind of
    step of that system. */
module HsmService {
  import opened Base
  import opened Coroutine
  import opened Mutex
  import opened Monitor
  import opened HsmSystem
  import HsmRuns
  import Transport

  /** A table entry with the headers of the guest's transport. */
  datatype Slot = Slot(ready: bool, tasklet: int, notify: u16, len: u16, last: u16, resp: u16)

  /** The entry that belongs to server v of guest i. */
  function SlotOf(v: Server, i: nat): Slot {
    Slot(v.ready, i, v.notify, v.len, v.last, v.resp)
  }

  class Service {
    const lock: SleepMutex
    const parts: Partitions
    const slots: array<Slot>

    ghost predicate Valid() reads this, lock, lock.sched, lock.sched.table, parts, parts.runtime, slots {
      lock.Valid() && parts.Valid()
    }

    ghost predicate Agrees(s: Sys)
      reads this, lock, lock.sched, lock.sched.table, parts, parts.runtime, slots
    {
      && Valid() && Inv(s)
      && lock.sched.V() == s.co && lock.L() == s.lock && parts.V() == s.mon
      && slots.Length == |s.srv|
      && forall i :: 0 <= i < slots.Length ==> slots[i] == SlotOf(s.srv[i], i)
    }

    constructor (lock: SleepMutex, parts: Partitions, slots: array<Slot>)
      requires lock.Valid() && parts.Valid()
      ensures Valid() && this.lock == lock && this.parts == parts && this.slots == slots
    {
      this.lock, this.parts, this.slots := lock, parts, slots;
    }

    /** wt_hsm_guest_for_tasklet: the guest that owns tasklet t; the table's size when nobody does. */
    method GuestForTasklet(t: int) returns (i: nat)
      ensures i <= slots.Length
      ensures i < slots.Length ==> t != NIL && slots[i].tasklet == t
      ensures forall j :: 0 <= j < i < slots.Length ==> slots[j].tasklet != t
      ensures i == slots.Length && t != NIL ==> forall j :: 0 <= j < slots.Length ==> slots[j].tasklet != t
    {
      if t == NIL { return slots.Length; }
      i := 0;
      while i < slots.Length
        invariant i <= slots.Length
        invariant forall j :: 0 <= j < i ==> slots[j].tasklet != t
      {
        if slots[i].tasklet == t { return; }
        i := i + 1;
      }
    }

    /** wt_cmse_transport_signal_fault, on the header: the client gets a response. */
    method SignalTransport(i: nat)
      requires Valid() && i < slots.Length == parts.runtime.Length
      modifies parts.runtime, slots
      ensures Valid() && lock.sched.V() == old(lock.sched.V()) && lock.L() == old(lock.L())
      ensures parts.V() == old(parts.V()).(gs := old(parts.V()).gs[i := ResponseReady(old(parts.runtime[i]))])
      ensures slots[..] == old(slots[..])[i := old(slots[i]).(resp := Inc16(old(slots[i]).resp))]
    {
      slots[i] := slots[i].(resp := Inc16(slots[i].resp));
      parts.HsmResponseReady(i);
    }

    /** The lock is dropped if the dying tasklet holds it. */
    method DropLock(t: int)
      requires Valid() && LockOk(lock.sched.V(), lock.L()) && NIL <= t
      modifies lock, lock.sched`head, lock.sched`tail, lock.sched`runq, lock.sched.table
      ensures Valid() && parts.V() == old(parts.V())
      ensures var before := (old(lock.sched.V()), old(lock.L()));
              (lock.sched.V(), lock.L()) == if t == NIL then before else ReleaseIfHolder(before.0, before.1, t)
    {
      if t != NIL { lock.ReleaseHeldBy(t); }
    }

    /** wt_hsm_signal_fault: drop the lock, answer the client, take the service down. */
    method SignalFault(i: nat)
      requires Valid() && LockOk(lock.sched.V(), lock.L())
      requires i < slots.Length == parts.runtime.Length && NIL <= slots[i].tasklet
      modifies lock, lock.sched`head, lock.sched`tail, lock.sched`runq, lock.sched.table, parts.runtime, slots
      ensures Valid()
      ensures var before, t := (old(lock.sched.V()), old(lock.L())), old(slots[i].tasklet);
              (lock.sched.V(), lock.L()) == if t == NIL then before else ReleaseIfHolder(before.0, before.1, t)
      ensures parts.V() == old(parts.V()).(gs := old(parts.V()).gs[i := ResponseReady(old(parts.runtime[i]))])
      ensures slots[..] == old(slots[..])[i := old(slots[i]).(resp := Inc16(old(slots[i]).resp), ready := false)]
    {
      DropLock(slots[i].tasklet);
      SignalTransport(i);
      slots[i] := slots[i].(ready := false);
    }

    /** wt_tasklet_mark_faulted on a tasklet that neither holds nor awaits the lock. */
    method MarkFaultedTasklet(t: nat)
      requires Valid() && t < lock.sched.count - 1 && t !in lock.waiters
      modifies lock.sched, lock.sched.table
      ensures Valid() && lock.L() == old(lock.L()) && lock.sched.V() == MarkFaulted(old(lock.sched.V()), t)
    {
      ghost var links := WaitLinks(lock.sched.table[..]);
      UnqueuedLink(links, lock.waitHead, lock.waitTail, lock.waiters, t);
      lock.sched.MarkFaultedCo(t);
      assert WaitLinks(lock.sched.table[..]) == links[t := NIL];
    }

    /** wt_tasklet_wake. */
    method WakeTasklet(t: nat)
      requires Valid() && Consistent(lock.sched.V()) && t < lock.sched.count - 1
      modifies lock.sched`head, lock.sched`tail, lock.sched`runq, lock.sched.table
      ensures Valid() && lock.L() == old(lock.L()) && lock.sched.V() == Wake(old(lock.sched.V()), t)
    {
      lock.sched.WakeCo(t);
      assert WaitLinks(lock.sched.table[..]) == old(WaitLinks(lock.sched.table[..]));
    }

    /** wt_secure_tasklet_fault_dispatch, for a fault in tasklet code. */
    method FaultDispatch(ghost s: Sys)
      requires Agrees(s) && s.ctl == InTaskletCode
      modifies lock, lock.sched, lock.sched.table, parts.runtime, slots
      ensures Agrees(TaskletFaultStep(s))
    {
      var t := lock.sched.current;
      TaskletFaultKeepsInv(s);
      FaultShape(s);
      var i := GuestForTasklet(t);
      assert slots[s.mon.cur].tasklet == s.mon.cur;
      if i < slots.Length { SignalFault(i); }
      MarkFaultedTasklet(t);
    }

    /** WolfTrust_HSM_Submit_Impl for guest i; false stands for WH_ERROR_BADARGS. */
    method OnSubmit(i: nat, size: u16) returns (ok: bool)
      requires Valid() && Consistent(lock.sched.V())
      requires i < slots.Length == parts.runtime.Length && slots[i].tasklet == i < lock.sched.count - 1
      modifies lock.sched`head, lock.sched`tail, lock.sched`runq, lock.sched.table, parts.runtime
      ensures Valid() && lock.L() == old(lock.L()) && ok == (slots[i].ready && 0 < size <= SLOT_BYTES)
      ensures !ok ==> parts.V() == old(parts.V()) && lock.sched.V() == old(lock.sched.V())
      ensures ok ==> parts.V() == old(parts.V()).(gs := old(parts.V()).gs[i := RequestPending(old(parts.runtime[i]))])
      ensures ok ==> lock.sched.V() == Wake(old(lock.sched.V()), i)
    {
      if !slots[i].ready { return false; }
      if size == 0 || size > SLOT_BYTES { return false; }
      parts.HsmRequestPending(i);
      var t := slots[i].tasklet;
      if t != NIL { WakeTasklet(t); }
      ok := true;
    }

    /** The running guest submits a request. */
    method Submit(size: u16, ghost s: Sys) returns (ok: bool)
      requires Agrees(s) && s.ctl == InGuestCode
      modifies lock.sched`head, lock.sched`tail, lock.sched`runq, lock.sched.table, parts.runtime
      ensures Agrees(SubmitStep(s, size))
      ensures ok == (s.srv[s.mon.cur].ready && 0 < size <= SLOT_BYTES)
    {
      SubmitKeepsInv(s, size);
      var active := parts.current;
      assert slots[active] == SlotOf(s.srv[active], active);
      assert lock.sched.count - 1 == |s.co.state|;
      ok := OnSubmit(active, size);
    }

    /** Which tasklets the monitor finds runnable (wt_hsm_tasklet_runnable, for every guest). */
    method FindRunnable(ghost s: Sys) returns (hsm: seq<bool>)
      requires Agrees(s)
      ensures hsm == RunnableTasklets(s)
    {
      hsm := [];
      while |hsm| < slots.Length
        invariant |hsm| <= slots.Length
        invariant forall i :: 0 <= i < |hsm| ==> hsm[i] == (s.co.state[i] == Runnable)
      {
        var i := |hsm|;
        assert slots[i] == SlotOf(s.srv[i], i);
        var t := slots[i].tasklet;
        assert lock.sched.V().state[t] == lock.sched.table[t].state;
        hsm := hsm + [t != NIL && lock.sched.table[t].state == Runnable];
      }
    }

    /** wt_tasklet_resume, when the monitor's loop enters the tasklet of guest g. */
    method ResumeTasklet(g: nat) returns (ran: bool)
      requires Valid() && g < lock.sched.count - 1
      modifies lock.sched, lock.sched.table
      ensures Valid() && lock.L() == old(lock.L()) && (lock.sched.V(), ran) == Run(old(lock.sched.V()), g)
    {
      ran := lock.sched.RunCo(g);
      assert WaitLinks(lock.sched.table[..]) == old(WaitLinks(lock.sched.table[..]));
    }

    method PreemptTasklet() returns (done: bool)
      requires Valid()
      modifies lock.sched, lock.sched.table
      ensures Valid() && lock.L() == old(lock.L()) && (lock.sched.V(), done) == Preempt(old(lock.sched.V()))
    {
      done := lock.sched.RequestPreempt();
      assert WaitLinks(lock.sched.table[..]) == old(WaitLinks(lock.sched.table[..]));
    }

    method BlockTasklet()
      requires Valid() && lock.sched.current != NIL
      modifies lock.sched, lock.sched.table
      ensures Valid() && lock.L() == old(lock.L()) && lock.sched.V() == Block(old(lock.sched.V()))
    {
      lock.sched.BlockCo();
      assert WaitLinks(lock.sched.table[..]) == old(WaitLinks(lock.sched.table[..]));
    }

    /** wt_monitor_on_secure_timer with the preemption at its end. */
    method OnTimerInterrupt(hsm: seq<bool>, trap: Trap)
      requires Valid() && |hsm| == parts.runtime.Length
      modifies lock.sched, lock.sched.table, parts, parts.runtime
      ensures Valid() && lock.L() == old(lock.L())
      ensures var (m, e) := OnTimer(old(parts.V()), hsm, trap);
              parts.V() == m && lock.sched.V() == if e.Preempts? then Preempt(old(lock.sched.V())).0 else old(lock.sched.V())
    {
      var e := parts.OnSecureTimer(hsm, trap);
      if e.Preempts? { var _ := PreemptTasklet(); }
    }

    /** The secure timer interrupt, by what it found running. */
    method TimerInterrupt(trap: Trap, ghost s: Sys)
      requires Agrees(s) && CanStep(s, Timer(trap))
      modifies lock.sched, lock.sched.table, parts, parts.runtime
      ensures Agrees(TimerStep(s, trap))
    {
      TimerKeepsInv(s, trap);
      TimerShape(s, trap);
      var hsm := FindRunnable(s);
      OnTimerInterrupt(hsm, trap);
    }

    /** wt_monitor_on_guest_fault with the clearing of the window. */
    method OnFaultOfGuest(hsm: seq<bool>)
      requires Valid() && |hsm| == parts.runtime.Length == slots.Length > 0
      modifies parts, parts.runtime, slots
      ensures Valid() && lock.L() == old(lock.L()) && lock.sched.V() == old(lock.sched.V())
      ensures parts.V() == OnFault(old(parts.V()), parts.policies, hsm).0
      ensures var i := old(parts.current);
              slots[..] == if Clears(old(parts.V()), parts.policies) then
                             old(slots[..])[i := old(slots[i]).(notify := 0, len := 0, resp := 0)]
                           else old(slots[..])
    {
      var i := parts.current;
      var v, clear := parts.OnGuestFault(hsm);
      if clear { slots[i] := slots[i].(notify := 0, len := 0, resp := 0); }
    }

    /** A fault of the running guest: its window is cleared as its policy says. */
    method GuestFault(ghost s: Sys)
      requires Agrees(s) && s.ctl == InGuestCode
      modifies parts, parts.runtime, slots
      ensures Agrees(FaultStep(s, parts.policies))
    {
      FaultKeepsInv(s, parts.policies);
      GuestFaultShape(s, parts.policies);
      var hsm := FindRunnable(s);
      assert slots[parts.current] == SlotOf(s.srv[s.mon.cur], s.mon.cur);
      OnFaultOfGuest(hsm);
    }

    /** The running guest writes its request header. */
    method GuestWritesHeader(notify: u16, len: u16, ghost s: Sys)
      requires Agrees(s) && s.ctl == InGuestCode
      modifies slots
      ensures Agrees(WriteStep(s, notify, len))
    {
      WriteKeepsInv(s, notify, len);
      var i := parts.current;
      assert slots[i] == SlotOf(s.srv[i], i);
      slots[i] := slots[i].(notify := notify, len := len);
    }

    /** One round of wt_schedule_next_guest in Thread mode, with the resume at its end. */
    method OnLoopTurn(hsm: seq<bool>)
      requires Valid() && |hsm| == parts.runtime.Length <= lock.sched.count - 1
      modifies lock.sched, lock.sched.table, parts, parts.runtime
      ensures Valid() && lock.L() == old(lock.L())
      ensures var (m, v) := ScheduleNext(old(parts.V()), hsm, false);
              && parts.V() == m && (v.EnterTasklet? ==> v.g < |old(lock.sched.V()).state|)
              && lock.sched.V() == if v.EnterTasklet? then Run(old(lock.sched.V()), v.g).0 else old(lock.sched.V())
    {
      DecisionsNeverPanic(parts.V(), hsm, false);
      var v := parts.ScheduleNextGuest(hsm, false);
      if v.EnterTasklet? { var _ := ResumeTasklet(v.g); }
    }

    /** One round of the monitor's loop in Thread mode. */
    method LoopRound(ghost s: Sys)
      requires Agrees(s) && s.ctl == InLoop
      modifies lock.sched, lock.sched.table, parts, parts.runtime
      ensures Agrees(LoopStep(s))
    {
      DecisionKeepsInv(s, false);
      LoopShape(s);
      var hsm := FindRunnable(s);
      assert lock.sched.count - 1 == |s.co.state|;
      OnLoopTurn(hsm);
    }

    /** Thread mode resumes the tasklet of guest g that Handler mode left to it. */
    method ResumePending(g: nat, ghost s: Sys)
      requires Agrees(s) && s.ctl == Deferred(g)
      modifies lock.sched, lock.sched.table, parts
      ensures Agrees(Obey(s, DispatchTasklet(s.mon, g)))
    {
      EnterTaskletKeepsInv(s, g);
      var v := parts.EnterTaskletOf(g);
      if v.EnterTasklet? { var _ := ResumeTasklet(v.g); }
    }

    /** wt_cmse_transport_recv on the header, and the wait of the server's loop. */
    method Receive(ghost s: Sys)
      requires Agrees(s) && At(s, AtRecv)
      modifies lock.sched, lock.sched.table, slots
      ensures Agrees(RecvStep(s))
    {
      RecvKeepsInv(s);
      var i := parts.current;
      assert slots[i] == SlotOf(s.srv[i], i);
      var slot := slots[i];
      if slot.notify != slot.last { slots[i] := slot.(last := slot.notify); }
      if slot.notify == slot.last || slot.len > SLOT_BYTES { BlockTasklet(); }
    }

    /** The serving tasklet acquires the lock, or joins the wait list. */
    method AcquireForServer(ghost s: Sys)
      requires Agrees(s) && At(s, Serving)
      modifies lock, lock.sched, lock.sched.table
      ensures Agrees(AcquireStep(s))
    {
      AcquireKeepsInv(s);
      var _ := lock.AcquireLock();
    }

    method ReleaseForServer(ghost s: Sys)
      requires Agrees(s) && At(s, Locked)
      modifies lock, lock.sched, lock.sched.table
      ensures Agrees(ReleaseStep(s))
    {
      ReleaseKeepsInv(s);
      var _ := lock.ReleaseLock();
    }

    /** wt_cmse_transport_send on the header: the client is answered. */
    method Send(ghost s: Sys)
      requires Agrees(s) && At(s, Serving)
      modifies parts.runtime, slots
      ensures Agrees(SendStep(s))
    {
      SendKeepsInv(s);
      var i := parts.current;
      assert slots[i] == SlotOf(s.srv[i], i);
      SignalTransport(i);
    }
  }

  /** Any step of the system, on the objects; `pending` is the guest whose tasklet Handler mode left to
      Thread mode. */
  method Perform(v: Service, a: Step, pending: nat, ghost s: Sys)
    requires v.Agrees(s) && CanStep(s, a) && (s.ctl.Deferred? ==> pending == s.ctl.g)
    modifies v.lock, v.lock.sched, v.lock.sched.table, v.parts, v.parts.runtime, v.slots
    ensures v.Agrees(Advance(s, v.parts.policies, a))
  {
    match a
    case Timer(trap) => v.TimerInterrupt(trap, s);
    case GuestFaults => v.GuestFault(s);
    case GuestWrites(notify, len) => v.GuestWritesHeader(notify, len, s);
    case Submit(size) => var _ := v.Submit(size, s);
    case ResumeDeferred => v.ResumePending(pending, s);
    case LoopTurn => v.LoopRound(s);
    case Recv => v.Receive(s);
    case Acquires => v.AcquireForServer(s);
    case AcquireReturns => AcquireReturnsAgrees(v, s);
    case Releases => v.ReleaseForServer(s);
    case Sends => v.Send(s);
    case TaskletFaults => v.FaultDispatch(s);
  }

  lemma LoopShape(s: Sys)
    requires Shape(s)
    requires var v := ScheduleNext(s.mon, RunnableTasklets(s), false).1; v.EnterTasklet? ==> v.g < |s.co.state|
    ensures var (m, v) := ScheduleNext(s.mon, RunnableTasklets(s), false);
            var s' := LoopStep(s);
            && s'.mon == m && s'.lock == s.lock && s'.srv == s.srv
            && s'.co == if v.EnterTasklet? then Run(s.co, v.g).0 else s.co
  {}

  lemma TimerShape(s: Sys, trap: Trap)
    requires Shape(s) && CanStep(s, Timer(trap))
    ensures var (m, e) := OnTimer(s.mon, RunnableTasklets(s), trap);
            var s' := TimerStep(s, trap);
            && s'.mon == m && s'.lock == s.lock && s'.srv == s.srv
            && s'.co == if e.Preempts? then Preempt(s.co).0 else s.co
  {
    DecisionBounded(s.mon, RunnableTasklets(s), trap);
  }

  /** Is the window of the guest that faults cleared? */
  predicate Clears(m: Mon, ps: seq<Policy>)
    requires m.cur < |m.gs| == |ps|
  {
    Punish(m, ps).gs[m.cur].st == Restarting && ps[m.cur].clears
  }

  /** A decision taken in Handler mode never resumes a tasklet. */
  lemma GuestFaultShape(s: Sys, ps: seq<Policy>)
    requires Shape(s) && |ps| == |s.mon.gs|
    ensures var s' := FaultStep(s, ps);
            var i := s.mon.cur;
            && s'.mon == OnFault(s.mon, ps, RunnableTasklets(s)).0 && s'.lock == s.lock && s'.co == s.co
            && s'.srv == if Clears(s.mon, ps) then s.srv[i := Cleared(s.srv[i])] else s.srv
  {}

  /** A tasklet that comes back inside acquire changes nothing: it is the holder already. */
  lemma AcquireReturnsAgrees(v: Service, s: Sys)
    requires v.Agrees(s) && At(s, InAcquire)
    ensures v.Agrees(MovePc(s, Pc.Locked))
  {
    AcquireReturnsKeepsInv(s);
  }

  /** Tasklets for n guests, created blocked. */
  method CreateTasklets(sched: Scheduler, n: nat)
    requires sched.Valid() && sched.V() == InitSched() && n < CO_MAX
    modifies sched, sched.table
    ensures sched.Valid() && sched.V() == HsmRuns.BootTasks(n)
  {
    var i := 0;
    assert HsmRuns.BootTasks(0).state == [];
    while i < n
      invariant i <= n
      invariant sched.Valid() && sched.V() == HsmRuns.BootTasks(i)
    {
      HsmRuns.CreateOne(i);
      var t := sched.NewCo(true);
      i := i + 1;
    }
  }

  /** wt_monitor_init and wt_monitor_start: guest 0 is entered. */
  method BootMonitor(ps: seq<Policy>) returns (parts: Partitions)
    requires 0 < |ps| < CO_MAX
    ensures fresh(parts) && fresh(parts.runtime) && parts.Valid() && parts.V() == HsmRuns.BootSys(|ps|).mon
  {
    var n := |ps|;
    parts := new Partitions(ps);
    var next := parts.FindNextRunnable(0, seq(n, i => false));
    assert Candidate(parts.runtime[..], seq(n, i => false), 0, 0);
    parts.EnterGuestCode(next);
    assert parts.V() == HsmRuns.BootSys(n).mon;
  }

  /** Boot with one service per guest: the objects start in the boot state of the system. */
  method Boot(ps: seq<Policy>) returns (v: Service)
    requires 0 < |ps| < CO_MAX
    ensures fresh(v) && v.Agrees(HsmRuns.BootSys(|ps|))
  {
    var n := |ps|;
    var sched := new Scheduler();
    CreateTasklets(sched, n);
    var lock := new SleepMutex(sched);
    var parts := BootMonitor(ps);
    var slots := new Slot[n](i => Slot(true, i, 0, 0, 0, 0));
    v := new Service(lock, parts, slots);
    ghost var s := HsmRuns.BootSys(n);
    HsmRuns.BootInv(n);
    assert lock.sched.V() == s.co;
  }

  /** Initialised transports have the headers of the boot state, whatever the guests' memory held. */
  lemma InitIsBoot(n: nat, i: nat, c: Transport.Channel)
    requires i < n < CO_MAX && Transport.Sized(c)
    ensures var d, v := Transport.InitChannel(c), HsmRuns.BootSys(n).srv[i];
            (d.notify, d.len, d.last, d.rnotify) == (v.notify, v.len, v.last, v.resp)
  {}

  /** The system's receive and send steps are the transport's, seen on the headers. */
  lemma StepsAreTheTransports(s: Sys, c: Transport.Channel, data: Transport.Bytes)
    requires Inv(s) && s.ctl == InTaskletCode && Transport.Sized(c) && |data| <= Transport.SLOT_DATA
    requires var v := s.srv[s.mon.cur]; (c.notify, c.len, c.last, c.rnotify) == (v.notify, v.len, v.last, v.resp)
    ensures s.srv[s.mon.cur].pc == AtRecv ==>
      var (c', r) := Transport.Recv(c);
      var v' := RecvStep(s).srv[s.mon.cur];
      && (v'.notify, v'.len, v'.last, v'.resp) == (c'.notify, c'.len, c'.last, c'.rnotify)
      && (v'.pc == Serving <==> r.Request?)
    ensures s.srv[s.mon.cur].pc == Serving ==>
      var c', v' := Transport.Send(c, data).0, SendStep(s).srv[s.mon.cur];
      (v'.notify, v'.len, v'.last, v'.resp) == (c'.notify, c'.len, c'.last, c'.rnotify)
  {}

  /** The fault step in the order in which the code does it. */
  lemma FaultShape(s: Sys)
    requires Inv(s) && s.ctl == InTaskletCode
    ensures var i := s.mon.cur;
            var (co, lock) := ReleaseIfHolder(s.co, s.lock, i);
            && s.co.current == Some(i) && LockOk(co, lock) && i !in lock.waiters && lock.holder != Some(i) && i < |co.state|
            && TaskletFaultStep(s) == Sys(s.mon.(gs := s.mon.gs[i := ResponseReady(s.mon.gs[i])]),
                 s.srv[i := s.srv[i].(resp := Inc16(s.srv[i].resp), ready := false, pc := Gone)],
                 MarkFaulted(co, i), lock, InLoop)
  {
    HandOffEffect(s.co, s.lock);
    assert ServerOk(s, s.mon.cur) && LockingOk(s, s.mon.cur);
  }
}
