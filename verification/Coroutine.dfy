/** Coroutines and their FIFO run queue (src/sched/coroutine.c). A pointer into the static
    coroutine table is its index; -1 stands for NULL and, in `current`, for the bootstrap. */
module Coroutine {
  import opened Base

  const CO_MAX := 8
  const NIL := -1

  datatype CoState = Runnable | Running | Blocked | Faulted

  /** One table entry, with its two intrusive links. */
  datatype Co = Co(state: CoState, id: nat, nextRun: int, nextWait: int)

  /** The scheduler as a value: states of the created coroutines, the run queue, who runs
      (None: the bootstrap), and the coroutines that were preempted and not run since. */
  datatype Sched = Sched(state: seq<CoState>, runq: seq<nat>, current: Option<nat>, parked: set<nat>)

  // ---------------------------------------------------------------- specification

  function Without(q: seq<nat>, i: nat): (r: seq<nat>)
    ensures i !in q ==> r == q
    ensures forall x :: x in r ==> x in q
  {
    if q == [] then [] else if q[0] == i then q[1..] else [q[0]] + Without(q[1..], i)
  }

  /** No entry occurs twice. */
  predicate NoDup(q: seq<nat>) {
    q == [] || (q[0] !in q[1..] && NoDup(q[1..]))
  }

  lemma {:induction false} NoDupAt(q: seq<nat>, k: nat)
    requires NoDup(q) && k < |q|
    ensures forall j :: 0 <= j < |q| && j != k ==> q[j] != q[k]
  {
    if k > 0 {
      NoDupAt(q[1..], k - 1);
      assert q[1..][k - 1] == q[k];
      forall j | 0 <= j < |q| && j != k ensures q[j] != q[k] {
        if j > 0 { assert q[1..][j - 1] == q[j]; }
      }
    } else {
      forall j | 0 < j < |q| ensures q[j] != q[0] { assert q[j] == q[1..][j - 1]; }
    }
  }

  function InitSched(): Sched {
    Sched([], [], None, {})
  }

  /** create_common: None when the table is used up (the bootstrap counts as one). */
  function Create(s: Sched, blocked: bool): (Sched, Option<nat>) {
    if |s.state| + 1 >= CO_MAX then (s, None)
    else if blocked then (s.(state := s.state + [Blocked]), Some(|s.state|))
    else (s.(state := s.state + [Runnable], runq := s.runq + [|s.state|]), Some(|s.state|))
  }

  function Wake(s: Sched, i: nat): Sched
    requires i < |s.state|
  {
    if s.state[i] == Blocked then s.(state := s.state[i := Runnable], runq := s.runq + [i]) else s
  }

  /** The running coroutine blocks and control returns to the bootstrap. */
  function Block(s: Sched): Sched
    requires s.current.Some? && s.current.value < |s.state|
  {
    s.(state := s.state[s.current.value := Blocked], current := None)
  }

  function MarkFaulted(s: Sched, i: nat): Sched
    requires i < |s.state|
  {
    Sched(s.state[i := Faulted], Without(s.runq, i),
          if s.current == Some(i) then None else s.current, s.parked - {i})
  }

  function Enter(s: Sched, i: nat): Sched
    requires i < |s.state|
  {
    s.(state := s.state[i := Running], current := Some(i), parked := s.parked - {i})
  }

  /** wt_co_run up to the entry into the coroutine. */
  function Run(s: Sched, i: nat): (Sched, bool)
    requires i < |s.state|
  {
    if s.current.Some? || s.state[i] != Runnable then (s, false)
    else (Enter(s.(runq := Without(s.runq, i)), i), true)
  }

  /** One round of wt_co_tick: enter the head of the queue. */
  function TickRound(s: Sched): (Sched, bool)
    requires s.runq != [] ==> s.runq[0] < |s.state|
  {
    if s.current.Some? || s.runq == [] then (s, false)
    else (Enter(s.(runq := s.runq[1..]), s.runq[0]), true)
  }

  /** The running coroutine is preempted: it stays runnable, but outside the queue. */
  function Preempt(s: Sched): (Sched, bool)
    requires s.current.Some? ==> s.current.value < |s.state|
  {
    if s.current.None? || s.state[s.current.value] != Running then (s, false)
    else (s.(state := s.state[s.current.value := Runnable], current := None,
             parked := s.parked + {s.current.value}), true)
  }

  // ---------------------------------------------------------------- invariant over all runs

  predicate AllBelow(q: seq<nat>, n: nat) {
    forall k :: 0 <= k < |q| ==> q[k] < n
  }

  /** The queue is duplicate-free and holds runnable coroutines only; exactly the current one is
      running; the runnable ones outside the queue are exactly the preempted ones. */
  ghost predicate Consistent(s: Sched) {
    && NoDup(s.runq)
    && AllBelow(s.runq, |s.state|)
    && (forall i :: i in s.parked ==> i < |s.state|)
    && (s.current.Some? ==> s.current.value < |s.state|)
    && (forall i :: 0 <= i < |s.state| ==>
          && (s.state[i] == Running <==> s.current == Some(i))
          && (s.state[i] == Runnable <==> i in s.runq || i in s.parked)
          && !(i in s.runq && i in s.parked))
  }

  datatype Op =
    | CreateOp(blocked: bool)
    | WakeOp(i: nat)
    | BlockOp
    | FaultOp(i: nat)
    | RunOp(i: nat)
    | TickOp
    | PreemptOp

  /** Calls on coroutines that exist, and blocking only from inside a coroutine. */
  predicate Enabled(s: Sched, op: Op) {
    match op
    case WakeOp(i) => i < |s.state|
    case FaultOp(i) => i < |s.state|
    case RunOp(i) => i < |s.state|
    case BlockOp => s.current.Some?
    case _ => true
  }

  ghost function Step(s: Sched, op: Op): Sched
    requires Consistent(s) && Enabled(s, op)
  {
    match op
    case CreateOp(b) => Create(s, b).0
    case WakeOp(i) => Wake(s, i)
    case BlockOp => Block(s)
    case FaultOp(i) => MarkFaulted(s, i)
    case RunOp(i) => Run(s, i).0
    case TickOp => TickRound(s).0
    case PreemptOp => Preempt(s).0
  }

  /** A run; an operation that is not enabled is not performed. */
  ghost function After(s: Sched, ops: seq<Op>): Sched {
    if ops == [] then s
    else
      var s1, op := After(s, ops[..|ops| - 1]), ops[|ops| - 1];
      if Consistent(s1) && Enabled(s1, op) then Step(s1, op) else s1
  }

  /** Unlink removes exactly one node and keeps the order of the rest. */
  lemma {:induction false} WithoutIsRemoval(q: seq<nat>, k: nat)
    requires NoDup(q) && k < |q|
    ensures Without(q, q[k]) == q[..k] + q[k + 1..]
  {
    if k > 0 {
      assert q[1..][k - 1] == q[k];
      WithoutIsRemoval(q[1..], k - 1);
    }
  }

  lemma {:induction false} WithoutFacts(q: seq<nat>, i: nat)
    requires NoDup(q)
    ensures NoDup(Without(q, i))
    ensures forall x :: x in Without(q, i) <==> x in q && x != i
  {
    if q != [] {
      WithoutFacts(q[1..], i);
      assert forall x :: x in q <==> x == q[0] || x in q[1..];
      if q[0] != i { assert ([q[0]] + Without(q[1..], i))[1..] == Without(q[1..], i); }
    }
  }

  lemma {:induction false} WithoutBelow(q: seq<nat>, i: nat, n: nat)
    requires AllBelow(q, n)
    ensures AllBelow(Without(q, i), n)
  {
    if q != [] { WithoutBelow(q[1..], i, n); }
  }

  lemma {:induction false} AppendNoDup(q: seq<nat>, i: nat)
    requires NoDup(q) && i !in q
    ensures NoDup(q + [i])
    ensures forall x :: x in q + [i] <==> x in q || x == i
  {
    if q != [] {
      AppendNoDup(q[1..], i);
      assert (q + [i])[1..] == q[1..] + [i];
    }
  }

  lemma CreateKeepsConsistent(s: Sched, blocked: bool)
    requires Consistent(s)
    ensures Consistent(Create(s, blocked).0)
  {
    AppendNoDup(s.runq, |s.state|);
  }

  lemma WakeKeepsConsistent(s: Sched, i: nat)
    requires Consistent(s) && i < |s.state|
    ensures Consistent(Wake(s, i))
  {
    if s.state[i] == Blocked { AppendNoDup(s.runq, i); }
  }

  lemma FaultKeepsConsistent(s: Sched, i: nat)
    requires Consistent(s) && i < |s.state|
    ensures Consistent(MarkFaulted(s, i))
  {
    WithoutFacts(s.runq, i);
    WithoutBelow(s.runq, i, |s.state|);
  }

  lemma RunKeepsConsistent(s: Sched, i: nat)
    requires Consistent(s) && i < |s.state|
    ensures Consistent(Run(s, i).0)
  {
    WithoutFacts(s.runq, i);
    WithoutBelow(s.runq, i, |s.state|);
  }

  lemma TickKeepsConsistent(s: Sched)
    requires Consistent(s)
    ensures Consistent(TickRound(s).0)
  {
    if s.current.None? && s.runq != [] {
      assert forall x :: x in s.runq <==> x == s.runq[0] || x in s.runq[1..];
    }
  }

  lemma StepKeepsConsistent(s: Sched, op: Op)
    requires Consistent(s) && Enabled(s, op)
    ensures Consistent(Step(s, op))
  {
    match op
    case CreateOp(b) => CreateKeepsConsistent(s, b);
    case WakeOp(i) => WakeKeepsConsistent(s, i);
    case FaultOp(i) => FaultKeepsConsistent(s, i);
    case RunOp(i) => RunKeepsConsistent(s, i);
    case TickOp => TickKeepsConsistent(s);
    case _ =>
  }

  /** After any sequence of create, wake, block, run, tick, preempt and fault. */
  lemma {:induction false} AlwaysConsistent(ops: seq<Op>)
    ensures Consistent(After(InitSched(), ops))
  {
    if ops != [] {
      var before, op := ops[..|ops| - 1], ops[|ops| - 1];
      AlwaysConsistent(before);
      var s := After(InitSched(), before);
      if Enabled(s, op) { StepKeepsConsistent(s, op); }
    }
  }

  /** The coroutines that were preempted and neither entered nor faulted since, by what happened to the CPU. */
  ghost function PreemptedSince(ops: seq<Op>): set<nat> {
    if ops == [] then {}
    else
      var before, op := ops[..|ops| - 1], ops[|ops| - 1];
      var s, s', p := After(InitSched(), before), After(InitSched(), ops), PreemptedSince(before);
      if op == PreemptOp && s.current.Some? then p + {s.current.value}
      else if op.FaultOp? && op.i < |s.state| then p - {op.i}
      else if s'.current.Some? then p - {s'.current.value}
      else p
  }

  lemma ParkedStep(s: Sched, op: Op)
    requires Consistent(s) && Enabled(s, op)
    ensures var s' := Step(s, op);
            s'.parked == if op == PreemptOp && s.current.Some? then s.parked + {s.current.value}
                         else if op.FaultOp? then s.parked - {op.i}
                         else if s'.current.Some? then s.parked - {s'.current.value}
                         else s.parked
  {
    if s.current.Some? { assert s.current.value !in s.parked; }
  }

  /** After any operations: a coroutine is runnable outside the queue if and only if it was preempted and
      neither entered nor faulted since. */
  lemma {:induction false} ParkedIsPreempted(ops: seq<Op>)
    ensures Consistent(After(InitSched(), ops)) && After(InitSched(), ops).parked == PreemptedSince(ops)
    ensures var s := After(InitSched(), ops);
            forall i :: 0 <= i < |s.state| ==> (i in PreemptedSince(ops) <==> s.state[i] == Runnable && i !in s.runq)
  {
    AlwaysConsistent(ops);
    if ops != [] {
      var before, op := ops[..|ops| - 1], ops[|ops| - 1];
      ParkedIsPreempted(before);
      var s := After(InitSched(), before);
      if Enabled(s, op) {
        ParkedStep(s, op);
      } else if s.current.Some? {
        assert s.current.value !in s.parked;
      }
    }
  }

  /** What each operation does to the CPU, to the states and to the queue: only wake and create put anybody
      into it, at its end; only run and tick enter anybody. */
  lemma OperationsDo(s: Sched, op: Op)
    requires Consistent(s) && Enabled(s, op)
    ensures var s' := Step(s, op);
            match op
            case CreateOp(b) =>
              if |s.state| >= 7 then s' == s
              else s' == s.(state := s.state + [if b then Blocked else Runnable], runq := if b then s.runq else s.runq + [|s.state|])
            case WakeOp(i) =>
              s' == if s.state[i] == Blocked then s.(state := s.state[i := Runnable], runq := s.runq + [i]) else s
            case BlockOp => s' == s.(state := s.state[s.current.value := Blocked], current := None)
            case PreemptOp =>
              && s'.runq == s.runq && s'.current == None
              && s'.state == if s.current.Some? then s.state[s.current.value := Runnable] else s.state
            case FaultOp(i) =>
              && s'.state == s.state[i := Faulted] && s'.current == (if s.current == Some(i) then None else s.current)
              && i !in s'.runq && forall j :: j != i ==> (j in s'.runq <==> j in s.runq)
            case RunOp(i) =>
              if s.current == None && s.state[i] == Runnable then
                && s'.state == s.state[i := Running] && s'.current == Some(i)
                && i !in s'.runq && forall j :: j != i ==> (j in s'.runq <==> j in s.runq)
              else s' == s
            case TickOp =>
              if s.current == None && s.runq != [] then
                && s'.state == s.state[s.runq[0] := Running] && s'.current == Some(s.runq[0]) && s'.runq == s.runq[1..]
              else s' == s
  {
    match op
    case FaultOp(i) => WithoutFacts(s.runq, i);
    case RunOp(i) => WithoutFacts(s.runq, i);
    case _ =>
  }

  /** A faulted coroutine stays faulted, so it is never queued, parked or current again. */
  lemma {:induction false} FaultedForever(s: Sched, ops: seq<Op>, i: nat)
    requires Consistent(s) && i < |s.state| && s.state[i] == Faulted
    ensures var s' := After(s, ops);
            Consistent(s') && i < |s'.state| && s'.state[i] == Faulted
    ensures var s' := After(s, ops); i !in s'.runq && i !in s'.parked && s'.current != Some(i)
  {
    if ops != [] {
      var before, op := ops[..|ops| - 1], ops[|ops| - 1];
      FaultedForever(s, before, i);
      var s1 := After(s, before);
      if Enabled(s1, op) { StepKeepsConsistent(s1, op); }
    }
  }

  /** FIFO service: a queued coroutine only moves forward. Each tick round moves it by exactly one
      place until it is the one entered; removals ahead of it also move it by one; nothing moves it
      back. */
  lemma QueueMovesForward(s: Sched, op: Op, k: nat)
    requires Consistent(s) && Enabled(s, op) && k < |s.runq|
    requires op != FaultOp(s.runq[k]) && op != RunOp(s.runq[k])
    ensures var s' := Step(s, op);
            var i := s.runq[k];
            if op == TickOp && s.current.None? then
              if k == 0 then s'.current == Some(i)
              else k - 1 < |s'.runq| && s'.runq[k - 1] == i
            else
              var ahead := (op.FaultOp? && op.i in s.runq[..k]) ||
                           (op.RunOp? && s.current.None? && op.i in s.runq[..k]);
              var k' := if ahead then k - 1 else k;
              k' < |s'.runq| && s'.runq[k'] == i
  {
    if op.FaultOp? || (op.RunOp? && s.current.None? && s.state[op.i] == Runnable) {
      WithoutMoves(s.runq, op.i, k);
    }
    if op.RunOp? && op.i in s.runq[..k] {
      assert op.i in s.runq;
    }
  }

  lemma {:induction false} WithoutMoves(q: seq<nat>, i: nat, k: nat)
    requires NoDup(q) && k < |q| && q[k] != i
    ensures var k' := if i in q[..k] then k - 1 else k;
            0 <= k' < |Without(q, i)| && Without(q, i)[k'] == q[k]
  {
    if q[0] == i {
      assert q[..k][0] == i;
    } else if k > 0 {
      WithoutMoves(q[1..], i, k - 1);
      assert q[..k] == [q[0]] + q[1..][..k - 1];
    }
  }

  ghost predicate InPlace(s: Sched, i: nat, k: int) {
    0 <= k < |s.runq| && s.runq[k] == i
  }

  /** Effective tick rounds of a run. */
  ghost function Rounds(s: Sched, ops: seq<Op>): nat {
    if ops == [] then 0
    else
      var before := ops[..|ops| - 1];
      Rounds(s, before) + if ops[|ops| - 1] == TickOp && After(s, before).current.None? then 1 else 0
  }

  /** Coroutine i is on the CPU after some of the operations, at round k + 1 at the latest. */
  ghost predicate EnteredBy(s: Sched, ops: seq<Op>, i: nat, k: nat) {
    exists m :: 0 < m <= |ops| && OnCpu(s, ops[..m], i) && Rounds(s, ops[..m]) <= k + 1
  }

  ghost predicate OnCpu(s: Sched, ops: seq<Op>, i: nat) {
    After(s, ops).current == Some(i)
  }

  /** After the operations, coroutine i is in place l, at least as many places ahead as there were rounds. */
  ghost predicate AheadBy(s: Sched, ops: seq<Op>, i: nat, k: nat, l: int) {
    InPlace(After(s, ops), i, l) && l + Rounds(s, ops) <= k
  }

  lemma EnteredNow(s: Sched, ops: seq<Op>, i: nat, k: nat)
    requires ops != [] && OnCpu(s, ops, i) && Rounds(s, ops) <= k + 1
    ensures EnteredBy(s, ops, i, k)
  {
    assert ops[..|ops|] == ops;
  }

  lemma {:induction false} AfterIsConsistent(s: Sched, ops: seq<Op>)
    requires Consistent(s)
    ensures Consistent(After(s, ops))
  {
    if ops != [] {
      var before, op := ops[..|ops| - 1], ops[|ops| - 1];
      AfterIsConsistent(s, before);
      if Enabled(After(s, before), op) { StepKeepsConsistent(After(s, before), op); }
    }
  }

  /** One operation: the coroutine is entered, or each tick round takes it one place further. */
  lemma MovesOrEnters(s: Sched, op: Op, i: nat, k: nat)
    requires Consistent(s) && Enabled(s, op) && InPlace(s, i, k) && op != FaultOp(i)
    ensures var s', tick := Step(s, op), op == TickOp && s.current.None?;
            || s'.current == Some(i)
            || (k > 0 && InPlace(s', i, k - 1))
            || (!tick && InPlace(s', i, k))
  {
    if op != RunOp(i) { QueueMovesForward(s, op, k); }
  }

  lemma {:induction false} ServedOrAhead(s: Sched, ops: seq<Op>, i: nat, k: nat)
    requires Consistent(s) && InPlace(s, i, k) && FaultOp(i) !in ops
    ensures EnteredBy(s, ops, i, k) || exists l :: AheadBy(s, ops, i, k, l)
  {
    if ops == [] {
      assert AheadBy(s, ops, i, k, k);
    } else {
      var before, op := ops[..|ops| - 1], ops[|ops| - 1];
      ServedOrAhead(s, before, i, k);
      if EnteredBy(s, before, i, k) {
        var m :| 0 < m <= |before| && OnCpu(s, before[..m], i) && Rounds(s, before[..m]) <= k + 1;
        assert ops[..m] == before[..m];
      } else {
        var l :| AheadBy(s, before, i, k, l);
        OneMore(s, ops, i, k, l);
      }
    }
  }

  lemma OneMore(s: Sched, ops: seq<Op>, i: nat, k: nat, l: int)
    requires Consistent(s) && ops != [] && ops[|ops| - 1] != FaultOp(i)
    requires AheadBy(s, ops[..|ops| - 1], i, k, l)
    ensures EnteredBy(s, ops, i, k) || exists l' :: AheadBy(s, ops, i, k, l')
  {
    var before, op := ops[..|ops| - 1], ops[|ops| - 1];
    AfterIsConsistent(s, before);
    var s1, s2 := After(s, before), After(s, ops);
    if Enabled(s1, op) {
      MovesOrEnters(s1, op, i, l);
      if s2.current == Some(i) { EnteredNow(s, ops, i, k); }
      else if l > 0 && InPlace(s2, i, l - 1) { assert AheadBy(s, ops, i, k, l - 1); }
      else { assert AheadBy(s, ops, i, k, l); }
    } else {
      assert AheadBy(s, ops, i, k, l);
    }
  }

  /** First come, first served over whole runs: whatever else happens, short of its own fault, the
      coroutine in place k (from 0) is entered by tick round k + 1 at the latest. */
  lemma ServedInTurn(s: Sched, ops: seq<Op>, i: nat, k: nat)
    requires Consistent(s) && InPlace(s, i, k) && FaultOp(i) !in ops && Rounds(s, ops) > k
    ensures EnteredBy(s, ops, i, k)
  {
    ServedOrAhead(s, ops, i, k);
  }

  // ---------------------------------------------------------------- linked queues

  function First(q: seq<nat>): int {
    if q == [] then NIL else q[0]
  }

  function Last(q: seq<nat>): int {
    if q == [] then NIL else q[|q| - 1]
  }

  /** The successor of place k in the queue q. */
  function Next(q: seq<nat>, k: nat): int {
    if k + 1 < |q| then q[k + 1] else NIL
  }

  /** q is threaded through the links from head to tail. */
  ghost predicate Chain(link: seq<int>, head: int, tail: int, q: seq<nat>) {
    && NoDup(q) && AllBelow(q, |link|)
    && head == First(q) && tail == Last(q)
    && forall k {:trigger Next(q, k)} :: 0 <= k < |q| ==> link[q[k]] == Next(q, k)
  }

  /** Links after appending i behind the tail. */
  function Appended(link: seq<int>, tail: int, i: nat): seq<int>
    requires i < |link| && NIL <= tail < |link|
  {
    if tail == NIL then link[i := NIL] else link[i := NIL][tail := i]
  }

  lemma ChainAppend(link: seq<int>, head: int, tail: int, q: seq<nat>, i: nat)
    requires Chain(link, head, tail, q) && i < |link| && i !in q
    ensures Chain(Appended(link, tail, i), if tail == NIL then i else head, i, q + [i])
  {
    var q', link' := q + [i], Appended(link, tail, i);
    AppendNoDup(q, i);
    if q != [] { NoDupAt(q, |q| - 1); }
    forall k | 0 <= k < |q'| ensures link'[q'[k]] == Next(q', k) {
      if k < |q| { assert link[q[k]] == Next(q, k); }
    }
  }

  lemma ChainPop(link: seq<int>, head: int, tail: int, q: seq<nat>)
    requires Chain(link, head, tail, q) && q != []
    ensures link[head] == First(q[1..])
    ensures Chain(link[head := NIL], link[head], if link[head] == NIL then NIL else tail, q[1..])
  {
    var q' := q[1..];
    assert link[q[0]] == Next(q, 0);
    NoDupAt(q, 0);
    forall k | 0 <= k < |q'| ensures link[head := NIL][q'[k]] == Next(q', k) {
      assert link[q[k + 1]] == Next(q, k + 1);
    }
  }

  /** Links after the k-th node was taken out: its predecessor (if any) skips it. */
  function Skipping(link: seq<int>, prev: int, i: nat): seq<int>
    requires i < |link| && NIL <= prev < |link|
  {
    if prev == NIL then link[i := NIL] else link[prev := link[i]][i := NIL]
  }

  lemma CutLinks(link: seq<int>, q: seq<nat>, q': seq<nat>, k: nat)
    requires k < |q| && AllBelow(q, |link|) && AllBelow(q', |link|)
    requires q' == q[..k] + q[k + 1..]
    requires forall j :: 0 <= j < |q| && j != k ==> q[j] != q[k]
    requires k > 0 ==> forall j :: 0 <= j < |q| && j != k - 1 ==> q[j] != q[k - 1]
    requires forall j {:trigger Next(q, j)} :: 0 <= j < |q| ==> link[q[j]] == Next(q, j)
    ensures var link' := Skipping(link, if k == 0 then NIL else q[k - 1], q[k]);
            forall j {:trigger Next(q', j)} :: 0 <= j < |q'| ==> link'[q'[j]] == Next(q', j)
  {
    var link' := Skipping(link, if k == 0 then NIL else q[k - 1], q[k]);
    assert link[q[k]] == Next(q, k);
    forall j | 0 <= j < |q'| ensures link'[q'[j]] == Next(q', j) {
      var j' := if j < k then j else j + 1;
      assert link[q[j']] == Next(q, j');
    }
  }

  /** The chain without its k-th node. */
  lemma ChainCut(link: seq<int>, head: int, tail: int, q: seq<nat>, k: nat)
    requires Chain(link, head, tail, q) && k < |q|
    ensures var q', prev := Without(q, q[k]), if k == 0 then NIL else q[k - 1];
            && Chain(Skipping(link, prev, q[k]), if k == 0 then link[q[k]] else head, Last(q'), q')
            && (tail != q[k] ==> tail == Last(q'))
  {
    WithoutIsRemoval(q, k);
    WithoutFacts(q, q[k]);
    WithoutBelow(q, q[k], |link|);
    CutTo(link, head, tail, q, k, Without(q, q[k]));
  }

  lemma CutTo(link: seq<int>, head: int, tail: int, q: seq<nat>, k: nat, q': seq<nat>)
    requires Chain(link, head, tail, q) && k < |q|
    requires q' == q[..k] + q[k + 1..] && NoDup(q') && AllBelow(q', |link|)
    ensures var prev := if k == 0 then NIL else q[k - 1];
            && Chain(Skipping(link, prev, q[k]), if k == 0 then link[q[k]] else head, Last(q'), q')
            && (tail != q[k] ==> tail == Last(q'))
  {
    NoDupAt(q, k);
    if k > 0 { NoDupAt(q, k - 1); }
    assert link[q[k]] == Next(q, k);
    CutLinks(link, q, q', k);
  }

  /** The link of a node outside the queue does not matter. */
  lemma UnqueuedLink(link: seq<int>, head: int, tail: int, q: seq<nat>, i: nat)
    requires Chain(link, head, tail, q) && i < |link| && i !in q
    ensures Chain(link[i := NIL], head, tail, q)
  {
    forall k | 0 <= k < |q| ensures link[i := NIL][q[k]] == Next(q, k) {
      assert q[k] in q;
      assert link[q[k]] == Next(q, k);
    }
  }

  function Links(t: seq<Co>): (r: seq<int>)
    ensures |r| == |t| && forall i :: 0 <= i < |t| ==> r[i] == t[i].nextRun
  {
    seq(|t|, i requires 0 <= i < |t| => t[i].nextRun)
  }

  function States(t: seq<Co>, n: nat): (r: seq<CoState>)
    requires n <= |t|
    ensures |r| == n && forall i :: 0 <= i < n ==> r[i] == t[i].state
  {
    seq(n, i requires 0 <= i < n => t[i].state)
  }

  class Scheduler {
    const table: array<Co>
    var count: nat  // slots used, the bootstrap included
    var head: int
    var tail: int
    var current: int
    ghost var runq: seq<nat>
    ghost var parked: set<nat>

    ghost predicate Valid() reads this, table {
      && table.Length == CO_MAX && 1 <= count <= CO_MAX
      && Chain(Links(table[..]), head, tail, runq)
      && AllBelow(runq, count - 1)
      && NIL <= current < count - 1
    }

    ghost function V(): (s: Sched)
      requires Valid()
      reads this, table
    {
      Sched(States(table[..], count - 1), runq, if current == NIL then None else Some(current), parked)
    }

    /** The wait links of src/sync/mutex.c live in the same table; no run-queue step touches them. */
    twostate predicate WaitLinksKept() reads table {
      forall i :: 0 <= i < table.Length ==> table[i].nextWait == old(table[i].nextWait)
    }

    /** No state changed. */
    twostate lemma StatesKept()
      requires old(count) == count && count - 1 <= table.Length && count > 0
      requires forall i :: 0 <= i < count - 1 ==> table[i].state == old(table[i].state)
      ensures States(table[..], count - 1) == old(States(table[..], count - 1))
    {}

    /** Exactly the state of coroutine i changed. */
    twostate lemma StateSet(i: nat)
      requires old(count) == count && i < count - 1 <= table.Length
      requires forall j :: 0 <= j < count - 1 && j != i ==> table[j].state == old(table[j].state)
      ensures States(table[..], count - 1) == old(States(table[..], count - 1))[i := table[i].state]
    {}

    constructor ()
      ensures Valid() && fresh(table) && V() == InitSched()
      ensures forall i :: 0 <= i < table.Length ==> table[i].nextWait == NIL
    {
      table := new Co[CO_MAX](i => Co(Blocked, 0, NIL, NIL));
      count, head, tail, current := 1, NIL, NIL, NIL;
      runq, parked := [], {};
    }

    /** runqueue_enqueue. */
    method Enqueue(i: nat)
      requires Valid() && i < count - 1 && i !in runq
      modifies this`head, this`tail, this`runq, table
      ensures Valid() && WaitLinksKept()
      ensures V() == old(V()).(runq := old(runq) + [i])
    {
      ChainAppend(Links(table[..]), head, tail, runq, i);
      table[i] := table[i].(nextRun := NIL);
      if tail != NIL {
        table[tail] := table[tail].(nextRun := i);
      } else {
        head := i;
      }
      assert Links(table[..]) == Appended(old(Links(table[..])), old(tail), i);
      tail := i;
      runq := runq + [i];
      StatesKept();
    }

    /** runqueue_dequeue. */
    method Dequeue() returns (i: int)
      requires Valid()
      modifies this`head, this`tail, this`runq, table
      ensures Valid() && WaitLinksKept()
      ensures if old(runq) == [] then i == NIL && V() == old(V())
              else i == old(runq)[0] && V() == old(V()).(runq := old(runq)[1..])
    {
      i := head;
      if i != NIL {
        ChainPop(Links(table[..]), head, tail, runq);
        head := table[i].nextRun;
        if head == NIL { tail := NIL; }
        table[i] := table[i].(nextRun := NIL);
        assert Links(table[..]) == old(Links(table[..]))[i := NIL];
        runq := runq[1..];
        StatesKept();
      }
    }

    /** The walk to the new tail after the last node was unlinked. */
    method FindTail() returns (t: nat)
      requires runq != [] && Chain(Links(table[..]), head, Last(runq), runq)
      ensures t == Last(runq)
    {
      t := head;
      ghost var k := 0;
      assert Links(table[..])[runq[0]] == Next(runq, 0);
      while table[t].nextRun != NIL
        invariant k < |runq| && t == runq[k] < table.Length && table[t].nextRun == Next(runq, k)
        decreases |runq| - k
      {
        t := table[t].nextRun;
        k := k + 1;
        assert Links(table[..])[runq[k]] == Next(runq, k);
      }
    }

    /** The search loop of runqueue_unlink: the place of i in the queue and the node before it. */
    method FindLink(i: nat) returns (prev: int, found: bool, ghost k: nat)
      requires Valid()
      ensures !found ==> i !in runq
      ensures found ==> k < |runq| && runq[k] == i && prev == if k == 0 then NIL else runq[k - 1]
    {
      var node := head;
      prev := NIL;
      k := 0;
      while node != NIL && node != i
        invariant k <= |runq| && node == (if k < |runq| then runq[k] else NIL)
        invariant prev == if k == 0 then NIL else runq[k - 1]
        invariant i !in runq[..k]
        decreases |runq| - k
      {
        assert Links(table[..])[runq[k]] == Next(runq, k);
        prev, node := node, table[node].nextRun;
        k := k + 1;
      }
      found := node != NIL;
      if !found { assert runq[..k] == runq; }
    }

    /** The node in place k is cut out of the chain; the tail is set afterwards. */
    method CutOut(prev: int, i: nat, ghost k: nat)
      requires Valid() && i < count - 1 && k < |runq| && runq[k] == i && prev == if k == 0 then NIL else runq[k - 1]
      modifies this`head, this`runq, table
      ensures runq == Without(old(runq), i) && AllBelow(runq, count - 1)
      ensures Chain(Links(table[..]), head, Last(runq), runq) && (tail != i ==> tail == Last(runq))
      ensures States(table[..], count - 1) == old(States(table[..], count - 1)) && WaitLinksKept()
    {
      ChainCut(Links(table[..]), head, tail, runq, k);
      WithoutBelow(runq, i, count - 1);
      Redirect(prev, i);
      StatesKept();
      runq := Without(runq, i);
    }

    /** runqueue_unlink: the link that points at the node is redirected past it. */
    method Unlink(i: nat)
      requires Valid() && i < count - 1
      modifies this`head, this`tail, this`runq, table
      ensures Valid() && WaitLinksKept()
      ensures V() == old(V()).(runq := Without(old(runq), i))
    {
      var prev, found, k := FindLink(i);
      if !found { return; }
      CutOut(prev, i, k);
      tail := NewTail(i);
    }

    method Redirect(prev: int, i: nat)
      requires i < table.Length && NIL <= prev < table.Length
      modifies this`head, table
      ensures head == if prev == NIL then old(table[i].nextRun) else old(head)
      ensures Links(table[..]) == Skipping(old(Links(table[..])), prev, i)
      ensures forall j :: 0 <= j < table.Length ==> table[j].state == old(table[j].state)
      ensures WaitLinksKept()
    {
      var next := table[i].nextRun;
      if prev == NIL { head := next; } else { table[prev] := table[prev].(nextRun := next); }
      table[i] := table[i].(nextRun := NIL);
    }

    /** The tail after node i was redirected past. */
    method NewTail(i: nat) returns (t: int)
      requires table.Length == CO_MAX && Chain(Links(table[..]), head, Last(runq), runq)
      requires tail != i ==> tail == Last(runq)
      ensures t == Last(runq)
    {
      t := tail;
      if tail == i {
        if head == NIL { t := NIL; } else { t := FindTail(); }
      }
    }

    /** The table slot of a new coroutine, not queued yet. */
    method FillSlot(blocked: bool) returns (i: nat)
      requires Valid() && count < CO_MAX
      modifies this`count, table
      ensures Valid() && i == old(count) - 1 == count - 2 && i !in runq
      ensures V() == old(V()).(state := old(V()).state + [if blocked then Blocked else Runnable])
      ensures forall j :: 0 <= j < table.Length && j != i ==> table[j].nextWait == old(table[j].nextWait)
    {
      i := count - 1;
      assert i !in runq;
      ghost var links := Links(table[..]);
      UnqueuedLink(links, head, tail, runq, i);
      table[i] := Co(if blocked then Blocked else Runnable, count, NIL, NIL);
      count := count + 1;
      assert Links(table[..]) == links[i := NIL];
      assert V().state == old(V()).state + [table[i].state];
    }

    method NewCo(blocked: bool) returns (i: int)
      requires Valid()
      modifies this, table
      ensures Valid()
      ensures var (s, r) := Create(old(V()), blocked);
              V() == s && i == if r.None? then NIL else r.value
      ensures forall j :: 0 <= j < table.Length && j != i ==> table[j].nextWait == old(table[j].nextWait)
    {
      if count >= CO_MAX { return NIL; }
      i := FillSlot(blocked);
      if !blocked { Enqueue(i); }
    }

    method WakeCo(i: nat)
      requires Valid() && Consistent(V()) && i < count - 1
      modifies this`head, this`tail, this`runq, table
      ensures Valid() && WaitLinksKept() && V() == Wake(old(V()), i)
    {
      assert V().state[i] == table[i].state;
      if table[i].state == Runnable || table[i].state == Running { return; }
      if table[i].state == Faulted { return; }
      table[i] := table[i].(state := Runnable);
      assert Links(table[..]) == old(Links(table[..]));
      StateSet(i);
      Enqueue(i);
    }

    /** wt_co_block up to the switch back to the bootstrap. */
    method BlockCo()
      requires Valid() && current != NIL
      modifies this`current, table
      ensures Valid() && WaitLinksKept() && V() == Block(old(V()))
    {
      var i := current;
      table[i] := table[i].(state := Blocked);
      current := NIL;
      StateSet(i);
    }

    /** The table entry of a faulted coroutine. */
    method SetFaulted(i: nat)
      requires Valid() && i < count - 1
      modifies this`current, this`parked, table
      ensures Valid()
      ensures var s := old(V());
              V() == Sched(s.state[i := Faulted], s.runq, if s.current == Some(i) then None else s.current, s.parked - {i})
      ensures forall j :: 0 <= j < table.Length && j != i ==> table[j].nextWait == old(table[j].nextWait)
      ensures table[i].nextWait == NIL
    {
      table[i] := table[i].(nextWait := NIL, state := Faulted);
      StateSet(i);
      assert Links(table[..]) == old(Links(table[..]));
      parked := parked - {i};
      if current == i { current := NIL; }
    }

    method MarkFaultedCo(i: nat)
      requires Valid() && i < count - 1
      modifies this, table
      ensures Valid() && V() == MarkFaulted(old(V()), i)
      ensures forall j :: 0 <= j < table.Length && j != i ==> table[j].nextWait == old(table[j].nextWait)
      ensures table[i].nextWait == NIL
    {
      Unlink(i);
      SetFaulted(i);
    }

    /** do_switch up to the entry into the coroutine. */
    method EnterCo(i: nat)
      requires Valid() && i < count - 1
      modifies this`current, this`parked, table
      ensures Valid() && WaitLinksKept() && V() == Enter(old(V()), i)
    {
      current := i;
      table[i] := table[i].(state := Running);
      parked := parked - {i};
      StateSet(i);
    }

    method RunCo(i: nat) returns (ran: bool)
      requires Valid() && i < count - 1
      modifies this, table
      ensures Valid() && WaitLinksKept() && (V(), ran) == Run(old(V()), i)
    {
      assert V().state[i] == table[i].state;
      if current != NIL { return false; }
      if table[i].state != Runnable { return false; }
      Unlink(i);
      EnterCo(i);
      ran := true;
    }

    /** One round of the loop of wt_co_tick. */
    method Tick() returns (ran: bool)
      requires Valid()
      modifies this, table
      ensures Valid() && WaitLinksKept() && (V(), ran) == TickRound(old(V()))
    {
      if current != NIL { return false; }
      var i := Dequeue();
      if i == NIL { return false; }
      EnterCo(i);
      ran := true;
    }

    method RequestPreempt() returns (done: bool)
      requires Valid()
      modifies this`current, this`parked, table
      ensures Valid() && WaitLinksKept() && (V(), done) == Preempt(old(V()))
    {
      if current == NIL { return false; }
      assert V().state[current] == table[current].state;
      if table[current].state != Running { return false; }
      var i := current;
      table[i] := table[i].(state := Runnable);
      current := NIL;
      parked := parked + {i};
      StateSet(i);
      done := true;
    }
  }
}
