/** Sleep mutex with direct hand-off of ownership (src/sync/mutex.c). */
module Mutex {
  import opened Base
  import opened Coroutine

  /** The mutex as a value: the holder, and the coroutines blocked on it, oldest first. */
  datatype Lock = Lock(holder: Option<nat>, waiters: seq<nat>)

  /** How acquire ends: refused in the bootstrap, taken at once, or blocked in the queue. */
  datatype Outcome = Refused | Taken | Waiting

  // ---------------------------------------------------------------- specification

  ghost predicate InRange(s: Sched, l: Lock) {
    && (s.current.Some? ==> s.current.value < |s.state|)
    && (l.holder.Some? ==> l.holder.value < |s.state|)
    && AllBelow(l.waiters, |s.state|)
  }

  ghost function Acquire(s: Sched, l: Lock): (Sched, Lock, Outcome)
    requires InRange(s, l)
  {
    if s.current.None? then (s, l, Refused)
    else if l.holder.None? then (s, l.(holder := s.current), Taken)
    else (Block(s), l.(waiters := l.waiters + [s.current.value]), Waiting)
  }

  /** The lock goes straight to the oldest waiter, who is woken as its holder. */
  ghost function HandOff(s: Sched, l: Lock): (Sched, Lock)
    requires InRange(s, l)
  {
    if l.waiters == [] then (s, l.(holder := None))
    else (Wake(s, l.waiters[0]), Lock(Some(l.waiters[0]), l.waiters[1..]))
  }

  ghost function Release(s: Sched, l: Lock): (Sched, Lock, bool)
    requires InRange(s, l)
  {
    if l.holder != s.current then (s, l, false)
    else var (s', l') := HandOff(s, l); (s', l', true)
  }

  ghost function ReleaseIfHolder(s: Sched, l: Lock, i: nat): (Sched, Lock)
    requires InRange(s, l)
  {
    if l.holder == Some(i) then HandOff(s, l) else (s, l)
  }

  ghost function TryAcquire(s: Sched, l: Lock): (Lock, bool) {
    if l.holder.Some? then (l, false) else (l.(holder := s.current), true)
  }

  /** The fault path: a dying coroutine gives up the lock, then leaves the scheduler. */
  ghost function Die(s: Sched, l: Lock, i: nat): (Sched, Lock)
    requires InRange(s, l) && i < |s.state|
  {
    var (s1, l1) := ReleaseIfHolder(s, l, i);
    (MarkFaulted(s1, i), l1)
  }

  // ---------------------------------------------------------------- invariant over all interleavings

  /** At most one holder by construction; the waiters are distinct, blocked, and not the holder;
      somebody holds the lock while anybody waits; the holder is alive. */
  ghost predicate LockOk(s: Sched, l: Lock) {
    && Consistent(s)
    && InRange(s, l)
    && NoDup(l.waiters)
    && (forall w :: w in l.waiters ==> w < |s.state| && s.state[w] == Blocked && l.holder != Some(w))
    && (l.waiters != [] ==> l.holder.Some?)
    && (l.holder.Some? ==> s.state[l.holder.value] != Faulted)
  }

  datatype Act = CoAct(op: Op) | AcquireAct | TryAct | ReleaseAct | FaultAct

  /** The rules of use: a waiter is woken only by the mutex, faults strike the running coroutine
      through the fault path, nobody acquires twice, and only coroutines try to acquire. */
  ghost predicate Allowed(s: Sched, l: Lock, a: Act) {
    match a
    case CoAct(op) => Enabled(s, op) && !op.FaultOp? && !(op.WakeOp? && op.i in l.waiters)
    case AcquireAct => s.current.Some? ==> l.holder != s.current
    case TryAct => s.current.Some?
    case ReleaseAct => true
    case FaultAct => s.current.Some?
  }

  ghost function Perform(s: Sched, l: Lock, a: Act): (Sched, Lock)
    requires Consistent(s) && InRange(s, l) && Allowed(s, l, a)
  {
    match a
    case CoAct(op) => (Step(s, op), l)
    case AcquireAct => (Acquire(s, l).0, Acquire(s, l).1)
    case TryAct => (s, TryAcquire(s, l).0)
    case ReleaseAct => (Release(s, l).0, Release(s, l).1)
    case FaultAct => Die(s, l, s.current.value)
  }

  lemma HandOffKeepsLockOk(s: Sched, l: Lock)
    requires LockOk(s, l)
    ensures LockOk(HandOff(s, l).0, HandOff(s, l).1)
  {
    if l.waiters != [] {
      StepKeepsConsistent(s, WakeOp(l.waiters[0]));
      NoDupAt(l.waiters, 0);
    }
  }

  lemma CoKeepsLockOk(s: Sched, l: Lock, op: Op)
    requires LockOk(s, l) && Allowed(s, l, CoAct(op))
    ensures LockOk(Step(s, op), l)
  {
    StepKeepsConsistent(s, op);
  }

  lemma AcquireKeepsLockOk(s: Sched, l: Lock)
    requires LockOk(s, l) && Allowed(s, l, AcquireAct)
    ensures LockOk(Acquire(s, l).0, Acquire(s, l).1)
  {
    if s.current.Some? && l.holder.Some? {
      StepKeepsConsistent(s, BlockOp);
      AppendNoDup(l.waiters, s.current.value);
    }
  }

  lemma DieKeepsLockOk(s: Sched, l: Lock)
    requires LockOk(s, l) && s.current.Some?
    ensures LockOk(Die(s, l, s.current.value).0, Die(s, l, s.current.value).1)
  {
    var i := s.current.value;
    HandOffKeepsLockOk(s, l);
    var (s1, l1) := ReleaseIfHolder(s, l, i);
    assert s1.current == s.current && l1.holder != Some(i);
    StepKeepsConsistent(s1, FaultOp(i));
  }

  lemma PerformKeepsLockOk(s: Sched, l: Lock, a: Act)
    requires LockOk(s, l) && Allowed(s, l, a)
    ensures LockOk(Perform(s, l, a).0, Perform(s, l, a).1)
  {
    match a
    case CoAct(op) => CoKeepsLockOk(s, l, op);
    case AcquireAct => AcquireKeepsLockOk(s, l);
    case TryAct =>
    case ReleaseAct => HandOffKeepsLockOk(s, l);
    case FaultAct => DieKeepsLockOk(s, l);
  }

  datatype Conf = Conf(s: Sched, l: Lock)

  ghost predicate Ok(c: Conf) {
    LockOk(c.s, c.l)
  }

  ghost predicate Moves(c: Conf, a: Act, c': Conf) {
    Ok(c) ==> Allowed(c.s, c.l, a) && (c'.s, c'.l) == Perform(c.s, c.l, a)
  }

  /** cs is a run: the states around the acts, one act at a time. */
  ghost predicate IsRun(cs: seq<Conf>, acts: seq<Act>) {
    && |cs| == |acts| + 1
    && forall k {:trigger Moves(cs[k], acts[k], cs[k + 1])} :: 0 <= k < |acts| ==> Moves(cs[k], acts[k], cs[k + 1])
  }

  /** On every interleaving of atomic steps. */
  lemma {:induction false} AlwaysLockOk(cs: seq<Conf>, acts: seq<Act>, n: nat)
    requires IsRun(cs, acts) && n <= |acts| && Ok(cs[0])
    ensures Ok(cs[n])
  {
    if n > 0 {
      var m := n - 1;
      AlwaysLockOk(cs, acts, m);
      assert Moves(cs[m], acts[m], cs[m + 1]);
      PerformKeepsLockOk(cs[m].s, cs[m].l, acts[m]);
    }
  }

  /** try_acquire: a coroutine gets a free lock and is refused a held one, and nobody is made to wait. */
  lemma TryTakesFreeLock(s: Sched, l: Lock)
    requires LockOk(s, l) && s.current.Some?
    ensures var (l', ok) := TryAcquire(s, l);
            && (ok <==> l.holder == None)
            && l'.waiters == l.waiters
            && l'.holder == if ok then s.current else l.holder
  {}

  /** How acquire and release answer, and who holds the lock afterwards: only its holder gives it up. */
  lemma LockAnswers(s: Sched, l: Lock)
    requires LockOk(s, l)
    ensures var (s', l', r) := Acquire(s, l);
            && (r == Refused <==> s.current == None) && (r == Refused ==> (s', l') == (s, l))
            && (r == Taken <==> s.current.Some? && l.holder == None)
            && (r == Taken ==> s' == s && l' == Lock(s.current, l.waiters))
            && (r == Waiting ==> l' == Lock(l.holder, l.waiters + [s.current.value]) && s'.current == None)
    ensures var (s', l', ok) := Release(s, l);
            && (ok <==> l.holder == s.current) && (!ok ==> (s', l') == (s, l))
            && (ok ==> l'.holder == if l.waiters == [] then None else Some(l.waiters[0]))
    ensures forall i: nat :: l.holder != Some(i) ==> ReleaseIfHolder(s, l, i) == (s, l)
    ensures l.holder.Some? ==> ReleaseIfHolder(s, l, l.holder.value) == HandOff(s, l)
  {}

  /** Does this act hand the lock on? */
  ghost predicate HandsOff(c: Conf, a: Act) {
    c.l.holder.Some? && c.l.holder == c.s.current && (a == ReleaseAct || a == FaultAct)
  }

  /** Number of hand-offs among the first n acts. */
  ghost function HandOffs(cs: seq<Conf>, acts: seq<Act>, n: nat): nat
    requires n <= |acts| <= |cs|
  {
    if n == 0 then 0
    else HandOffs(cs, acts, n - 1) + if HandsOff(cs[n - 1], acts[n - 1]) then 1 else 0
  }

  ghost predicate InPlace(l: Lock, w: nat, k: int) {
    0 <= k < |l.waiters| && l.waiters[k] == w
  }

  /** One act moves a waiter by one place if it hands the lock on, and not at all otherwise. */
  lemma PlaceStep(cs: seq<Conf>, acts: seq<Act>, n: nat, w: nat, k: nat)
    requires IsRun(cs, acts) && Ok(cs[0]) && n < |acts| && InPlace(cs[n].l, w, k)
    ensures if !HandsOff(cs[n], acts[n]) then InPlace(cs[n + 1].l, w, k)
            else if k > 0 then InPlace(cs[n + 1].l, w, k - 1)
            else cs[n + 1].l.holder == Some(w)
  {
    AlwaysLockOk(cs, acts, n);
    assert Moves(cs[n], acts[n], cs[n + 1]);
  }

  /** Waiting is strictly first come, first served, whatever else happens: after h <= k hand-offs
      the waiter in place k (counting from 0) is in place k - h ... */
  lemma {:induction false} WaitersKeepTheirOrder(cs: seq<Conf>, acts: seq<Act>, n: nat, w: nat, k: nat)
    requires IsRun(cs, acts) && Ok(cs[0]) && InPlace(cs[0].l, w, k) && n <= |acts|
    requires HandOffs(cs, acts, n) <= k
    ensures InPlace(cs[n].l, w, k - HandOffs(cs, acts, n))
  {
    if n > 0 {
      WaitersKeepTheirOrder(cs, acts, n - 1, w, k);
      PlaceStep(cs, acts, n - 1, w, k - HandOffs(cs, acts, n - 1));
    }
  }

  /** ... and hand-off number k + 1, be it a release or the holder's fault, makes it the holder. */
  lemma WaitersAreServedInOrder(cs: seq<Conf>, acts: seq<Act>, n: nat, w: nat, k: nat)
    requires IsRun(cs, acts) && Ok(cs[0]) && InPlace(cs[0].l, w, k) && n < |acts|
    requires HandOffs(cs, acts, n) == k && HandOffs(cs, acts, n + 1) == k + 1
    ensures cs[n + 1].l.holder == Some(w)
  {
    WaitersKeepTheirOrder(cs, acts, n, w, k);
    PlaceStep(cs, acts, n, w, 0);
  }

  // ---------------------------------------------------------------- acquiring twice

  /** h holds the lock and waits for it. */
  ghost predicate SelfLocked(c: Conf, h: nat) {
    && Consistent(c.s) && InRange(c.s, c.l)
    && c.l.holder == Some(h) && h in c.l.waiters && c.s.state[h] == Blocked
  }

  /** The code does not refuse a second acquire by the holder. An acquire keeps the lock in order if and
      only if it is not one; otherwise the holder waits for itself. */
  lemma AcquireKeepsLockOkIff(s: Sched, l: Lock)
    requires LockOk(s, l)
    ensures var (s', l', _) := Acquire(s, l);
            && (LockOk(s', l') <==> s.current.None? || l.holder != s.current)
            && (!LockOk(s', l') ==> SelfLocked(Conf(s', l'), s.current.value))
  {
    if s.current.Some? && l.holder == s.current {
      StepKeepsConsistent(s, BlockOp);
      assert (l.waiters + [s.current.value])[|l.waiters|] == s.current.value;
    } else {
      AcquireKeepsLockOk(s, l);
    }
  }

  ghost predicate MovesOn(c: Conf, a: Act, c': Conf) {
    Consistent(c.s) && InRange(c.s, c.l) ==> Allowed(c.s, c.l, a) && (c'.s, c'.l) == Perform(c.s, c.l, a)
  }

  lemma SelfLockedStep(c: Conf, a: Act, c': Conf, h: nat)
    requires SelfLocked(c, h) && MovesOn(c, a, c')
    ensures SelfLocked(c', h)
  {
    match a
    case CoAct(op) => StepKeepsConsistent(c.s, op);
    case AcquireAct => if c.s.current.Some? { StepKeepsConsistent(c.s, BlockOp); }
    case FaultAct => StepKeepsConsistent(c.s, FaultOp(c.s.current.value));
    case _ =>
  }

  /** And then for ever: whatever the others do, it stays the blocked holder, so nobody gets the lock. */
  lemma {:induction false} SelfLockedForever(cs: seq<Conf>, acts: seq<Act>, n: nat, h: nat)
    requires |cs| == |acts| + 1 && n <= |acts| && SelfLocked(cs[0], h)
    requires forall k {:trigger MovesOn(cs[k], acts[k], cs[k + 1])} :: 0 <= k < |acts| ==> MovesOn(cs[k], acts[k], cs[k + 1])
    ensures SelfLocked(cs[n], h)
  {
    if n > 0 {
      var m := n - 1;
      SelfLockedForever(cs, acts, m, h);
      assert MovesOn(cs[m], acts[m], cs[m + 1]);
      SelfLockedStep(cs[m], acts[m], cs[m + 1], h);
    }
  }

  // ---------------------------------------------------------------- the class

  function WaitLinks(t: seq<Co>): (r: seq<int>)
    ensures |r| == |t| && forall i :: 0 <= i < |t| ==> r[i] == t[i].nextWait
  {
    seq(|t|, i requires 0 <= i < |t| => t[i].nextWait)
  }

  class SleepMutex {
    const sched: Scheduler
    var holder: int
    var waitHead: int
    var waitTail: int
    ghost var waiters: seq<nat>

    ghost predicate Valid() reads this, sched, sched.table {
      && sched.Valid()
      && NIL <= holder < sched.count - 1
      && AllBelow(waiters, sched.count - 1)
      && Chain(WaitLinks(sched.table[..]), waitHead, waitTail, waiters)
    }

    ghost function L(): Lock reads this {
      Lock(if holder < 0 then None else Some(holder), waiters)
    }

    constructor (sched: Scheduler)
      requires sched.Valid()
      ensures this.sched == sched && Valid() && L() == Lock(None, [])
    {
      this.sched := sched;
      holder, waitHead, waitTail := NIL, NIL, NIL;
      waiters := [];
    }

    /** wt_mutex_acquire up to the point where it returns or leaves the CPU. */
    method AcquireLock() returns (r: Outcome)
      requires Valid() && LockOk(sched.V(), L())
      modifies this, sched, sched.table
      ensures Valid() && (sched.V(), L(), r) == Acquire(old(sched.V()), old(L()))
    {
      var self := sched.current;
      if self == NIL { return Refused; }
      if holder == NIL {
        holder := self;
        return Taken;
      }
      Append(self);
      sched.BlockCo();
      assert WaitLinks(sched.table[..]) == Appended(old(WaitLinks(sched.table[..])), old(waitTail), self);
      r := Waiting;
    }

    /** The running coroutine joins the wait list. */
    method Append(i: nat)
      requires Valid() && i < sched.count - 1 && i !in waiters
      modifies this, sched.table
      ensures Valid() && sched.V() == old(sched.V())
      ensures holder == old(holder) && waiters == old(waiters) + [i]
      ensures WaitLinks(sched.table[..]) == Appended(old(WaitLinks(sched.table[..])), old(waitTail), i)
    {
      ChainAppend(WaitLinks(sched.table[..]), waitHead, waitTail, waiters, i);
      var t := sched.table;
      t[i] := t[i].(nextWait := NIL);
      if waitHead == NIL {
        waitHead := i;
      } else {
        t[waitTail] := t[waitTail].(nextWait := i);
      }
      waitTail := i;
      waiters := waiters + [i];
      assert Links(t[..]) == old(Links(sched.table[..]));
      assert WaitLinks(t[..]) == Appended(old(WaitLinks(sched.table[..])), old(waitTail), i);
      sched.StatesKept();
    }

    /** The tail shared by release and release_if_holder. */
    method PassOn()
      requires Valid() && LockOk(sched.V(), L())
      modifies this, sched`head, sched`tail, sched`runq, sched.table
      ensures Valid() && (sched.V(), L()) == HandOff(old(sched.V()), old(L()))
    {
      if waitHead == NIL {
        holder := NIL;
        return;
      }
      var next := waitHead;
      Pop();
      holder := next;
      sched.WakeCo(next);
      assert WaitLinks(sched.table[..]) == old(WaitLinks(sched.table[..]))[next := NIL];
    }

    method Pop()
      requires Valid() && waiters != []
      modifies this, sched.table
      ensures Valid() && sched.V() == old(sched.V()) && holder == old(holder)
      ensures waiters == old(waiters)[1..]
      ensures WaitLinks(sched.table[..]) == old(WaitLinks(sched.table[..]))[old(waitHead) := NIL]
    {
      ChainPop(WaitLinks(sched.table[..]), waitHead, waitTail, waiters);
      var t := sched.table;
      var next := waitHead;
      waitHead := t[next].nextWait;
      if waitHead == NIL { waitTail := NIL; }
      t[next] := t[next].(nextWait := NIL);
      waiters := waiters[1..];
      assert Links(t[..]) == old(Links(sched.table[..]));
      assert WaitLinks(t[..]) == old(WaitLinks(sched.table[..]))[next := NIL];
      sched.StatesKept();
    }

    method ReleaseLock() returns (ok: bool)
      requires Valid() && LockOk(sched.V(), L())
      modifies this, sched`head, sched`tail, sched`runq, sched.table
      ensures Valid() && (sched.V(), L(), ok) == Release(old(sched.V()), old(L()))
    {
      if holder != sched.current { return false; }
      PassOn();
      ok := true;
    }

    method ReleaseHeldBy(i: nat)
      requires Valid() && LockOk(sched.V(), L())
      modifies this, sched`head, sched`tail, sched`runq, sched.table
      ensures Valid() && (sched.V(), L()) == ReleaseIfHolder(old(sched.V()), old(L()), i)
    {
      if holder != i { return; }
      PassOn();
    }

    method TryAcquireLock() returns (ok: bool)
      requires Valid()
      modifies this`holder
      ensures Valid() && (L(), ok) == TryAcquire(sched.V(), old(L()))
    {
      if holder != NIL { return false; }
      holder := sched.current;
      ok := true;
    }
  }
}
