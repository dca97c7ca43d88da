/** Partition scheduler (src/monitor.c): cyclic choice of the next guest, restart back-off, the
    restart limit, and the timer and fault entry points. */
module Monitor {
  import opened Base

  /** wt_guest_state_t. */
  datatype GuestState = Stopped | Ready | Running | WaitingHsm | Faulted | Restarting

  /** wt_guest_runtime_t without the saved context. */
  datatype Guest = Guest(st: GuestState, delay: u32, restarts: u32, first: u32)

  /** Restart policy of a guest; `clears` tells whether one of its windows is zeroed on restart. */
  datatype Policy = Policy(limit: u32, window: u32, delay: u32, clears: bool)

  /** Who runs for the current guest: its own code, or its tasklet. */
  datatype Rep = NonSecure | Hsm

  datatype Mon = Mon(gs: seq<Guest>, cur: nat, rep: Rep, ticks: u32)

  /** How a scheduling decision ends: everybody is out, guest code is entered, a tasklet is left to
      Thread mode, a tasklet is resumed, or the state check of the dispatcher panics. */
  datatype Verdict = AllFaulted | EnterGuest(g: nat) | Defer(g: nat) | EnterTasklet(g: nat) | Panic

  /** How a secure timer interrupt ends. */
  datatype TimerEnd = Back | Preempts | Decides(v: Verdict)

  /** What the interrupt found running. */
  datatype Trap = InTasklet(guest: nat) | InService | InSecure | InGuest

  // ---------------------------------------------------------------- choice of the next guest

  /** x reduced modulo n, for x below 2n. */
  function Cyc(x: nat, n: nat): nat {
    if x < n then x else x - n
  }

  lemma CycIsMod(x: nat, n: nat)
    requires x < 2 * n
    ensures x % n == Cyc(x, n)
  {
    if x < n { DivUnique(x, n, 0, x); } else { DivUnique(x, n, 1, x - n); }
  }

  /** May this guest be chosen? `hsm` tells whether its tasklet is runnable. */
  predicate Eligible(g: Guest, hsm: bool) {
    g.delay == 0 && if g.st == WaitingHsm then hsm else g.st == Ready || g.st == Running
  }

  /** Is the guest d places behind `start` eligible? */
  predicate Candidate(gs: seq<Guest>, hsm: seq<bool>, start: nat, d: nat)
    requires |hsm| == |gs| && start < |gs| && d < |gs|
  {
    var c := Cyc(start + d, |gs|);
    Eligible(gs[c], hsm[c])
  }

  /** The scan of wt_find_next_runnable from attempt a on; |gs| when nobody is eligible. */
  function FindFrom(gs: seq<Guest>, hsm: seq<bool>, start: nat, a: nat): (r: nat)
    requires |hsm| == |gs| && start < |gs| && a <= |gs|
    ensures r <= |gs|
    decreases |gs| - a
  {
    if a == |gs| then |gs|
    else if Candidate(gs, hsm, start, a) then Cyc(start + a, |gs|)
    else FindFrom(gs, hsm, start, a + 1)
  }

  /** Places of the cyclic scan between `start` and guest i. */
  function Distance(start: nat, i: nat, n: nat): (d: nat)
    requires start < n && i < n
    ensures d < n && Cyc(start + d, n) == i
  {
    if i >= start then i - start else i + n - start
  }

  ghost predicate NoneIn(gs: seq<Guest>, hsm: seq<bool>, start: nat, a: nat, b: nat)
    requires |hsm| == |gs| && start < |gs| && b <= |gs|
  {
    forall d {:trigger Candidate(gs, hsm, start, d)} :: a <= d < b ==> !Candidate(gs, hsm, start, d)
  }

  lemma {:induction false} FindFromFirst(gs: seq<Guest>, hsm: seq<bool>, start: nat, a: nat)
    requires |hsm| == |gs| && start < |gs| && a <= |gs|
    ensures var r := FindFrom(gs, hsm, start, a);
            && (r == |gs| ==> NoneIn(gs, hsm, start, a, |gs|))
            && (r < |gs| ==> Eligible(gs[r], hsm[r]) && a <= Distance(start, r, |gs|)
                             && NoneIn(gs, hsm, start, a, Distance(start, r, |gs|)))
    decreases |gs| - a
  {
    if a < |gs| && !Candidate(gs, hsm, start, a) {
      FindFromFirst(gs, hsm, start, a + 1);
    }
  }

  /** The chosen guest is eligible, no eligible guest is nearer, and "none" means none. */
  lemma FindsNearest(gs: seq<Guest>, hsm: seq<bool>, start: nat)
    requires |hsm| == |gs| && start < |gs|
    ensures var r := FindFrom(gs, hsm, start, 0);
            && (r < |gs| <==> exists i :: 0 <= i < |gs| && Eligible(gs[i], hsm[i]))
            && (r < |gs| ==> Eligible(gs[r], hsm[r]))
            && forall i :: 0 <= i < |gs| && Eligible(gs[i], hsm[i]) ==>
                 r < |gs| && Distance(start, r, |gs|) <= Distance(start, i, |gs|)
  {
    FindFromFirst(gs, hsm, start, 0);
    forall i | 0 <= i < |gs| && Eligible(gs[i], hsm[i])
      ensures var r := FindFrom(gs, hsm, start, 0);
              r < |gs| && Distance(start, r, |gs|) <= Distance(start, i, |gs|)
    {
      assert Candidate(gs, hsm, start, Distance(start, i, |gs|));
    }
  }

  /** A decision chooses the eligible guest i, or somebody nearer, from whom i is nearer than before. */
  lemma ComesNearer(gs: seq<Guest>, hsm: seq<bool>, cur: nat, i: nat)
    requires |hsm| == |gs| && cur < |gs| && i < |gs| && Eligible(gs[i], hsm[i])
    ensures var n, r := |gs|, FindFrom(gs, hsm, Cyc(cur + 1, |gs|), 0);
            r < n && (r == i || Distance(Cyc(r + 1, n), i, n) < Distance(Cyc(cur + 1, n), i, n))
  {
    FindsNearest(gs, hsm, Cyc(cur + 1, |gs|));
  }

  /** The guests and the tasklets as one scheduling decision finds them. */
  datatype Scene = Scene(gs: seq<Guest>, hsm: seq<bool>)

  /** One decision: the scan starts behind the guest chosen last. */
  ghost predicate Decision(w: Scene, cur: nat, next: nat) {
    |w.hsm| == |w.gs| && cur < |w.gs| && next == FindFrom(w.gs, w.hsm, Cyc(cur + 1, |w.gs|), 0)
  }

  ghost predicate StaysEligible(w: Scene, n: nat, i: nat) {
    |w.gs| == |w.hsm| == n && i < n && Eligible(w.gs[i], w.hsm[i])
  }

  /** Bounded waiting: over any decisions in a row, with guests and tasklets changing in between as
      they like, a guest that is eligible at each of them is chosen after at most as many decisions
      as there are places between it and the scan's start, so within n decisions. */
  lemma {:induction false} ServedWithinOneRound(ws: seq<Scene>, chosen: seq<nat>, n: nat, i: nat)
    requires i < n && |ws| == |chosen| - 1 && chosen[0] < n
    requires forall k {:trigger StaysEligible(ws[k], n, i)} :: 0 <= k < |ws| ==> StaysEligible(ws[k], n, i)
    requires forall k {:trigger Decision(ws[k], chosen[k], chosen[k + 1])} :: 0 <= k < |ws| ==> Decision(ws[k], chosen[k], chosen[k + 1])
    requires |ws| > Distance(Cyc(chosen[0] + 1, n), i, n)
    ensures exists k :: 0 < k <= Distance(Cyc(chosen[0] + 1, n), i, n) + 1 <= n && chosen[k] == i
    decreases |ws|
  {
    var start := Cyc(chosen[0] + 1, n);
    var z := 0;
    assert StaysEligible(ws[z], n, i) && Decision(ws[z], chosen[z], chosen[z + 1]);
    ComesNearer(ws[0].gs, ws[0].hsm, chosen[0], i);
    if chosen[1] != i {
      var ws', chosen' := ws[1..], chosen[1..];
      forall k | 0 <= k < |ws'| ensures StaysEligible(ws'[k], n, i) { assert StaysEligible(ws[k + 1], n, i); }
      forall k | 0 <= k < |ws'| ensures Decision(ws'[k], chosen'[k], chosen'[k + 1]) {
        var m := k + 1;
        assert Decision(ws[m], chosen[m], chosen[m + 1]);
      }
      ServedWithinOneRound(ws', chosen', n, i);
      var k :| 0 < k <= Distance(Cyc(chosen'[0] + 1, n), i, n) + 1 && chosen'[k] == i;
      assert chosen[k + 1] == i;
    } else {
      assert chosen[1] == i;
    }
  }

  // ---------------------------------------------------------------- restart and back-off

  /** wt_partition_reset_runtime: a clean slate, except for the restart counters. */
  function ResetGuest(g: Guest): Guest {
    Guest(Ready, 0, g.restarts, g.first)
  }

  /** One round of wt_tick_restart_backoff for one guest. */
  function BackoffGuest(g: Guest): Guest {
    if g.delay == 0 then g
    else if g.delay == 1 && g.st == Restarting then ResetGuest(g)
    else g.(delay := g.delay - 1)
  }

  function Backoff(gs: seq<Guest>): (r: seq<Guest>)
    ensures |r| == |gs| && forall i :: 0 <= i < |gs| ==> r[i] == BackoffGuest(gs[i])
  {
    seq(|gs|, i requires 0 <= i < |gs| => BackoffGuest(gs[i]))
  }

  function BackoffTimes(g: Guest, k: nat): Guest {
    if k == 0 then g else BackoffGuest(BackoffTimes(g, k - 1))
  }

  /** A restarted guest is ready again after exactly as many back-off rounds as its delay says, with
      its counters kept; with a delay of 0 it never is. */
  lemma {:induction false} BackoffEnds(g: Guest, k: nat)
    requires g.st == Restarting
    ensures BackoffTimes(g, k) == if 0 < g.delay <= k then Guest(Ready, 0, g.restarts, g.first)
                                  else if g.delay == 0 then g else g.(delay := g.delay - k)
  {
    if k > 0 { BackoffEnds(g, k - 1); }
  }

  /** Does a fault at tick `now` open a new accounting window? */
  predicate Opens(g: Guest, p: Policy, now: u32) {
    p.limit > 0 && (g.restarts == 0 || (p.window > 0 && Sub32(now, g.first) >= p.window))
  }

  /** wt_restart_guest on the runtime entry. */
  function RestartGuest(g: Guest, p: Policy, now: u32): Guest {
    var g1 := if Opens(g, p, now) then g.(restarts := 0, first := now) else g;
    if p.limit > 0 && g1.restarts >= p.limit then g1.(st := Faulted)
    else
      var g2 := if g1.restarts == 0 then g1.(first := now) else g1;
      Guest(Restarting, p.delay, if g2.restarts == 0xFFFF_FFFF then 0 else g2.restarts + 1, g2.first)
  }

  /** One instant in the life of a guest: its runtime entry, the unbounded tick, and whether the
      guest faults now. */
  datatype Moment = Moment(g: Guest, tick: nat, faults: bool)

  /** Between two moments the counters change by a fault only, and ticks never go back. */
  ghost predicate Follows(m: Moment, p: Policy, m': Moment) {
    && m.tick <= m'.tick
    && var g := if m.faults then RestartGuest(m.g, p, Tick(m.tick)) else m.g;
       m'.g.restarts == g.restarts && m'.g.first == g.first
  }

  ghost predicate IsLife(ms: seq<Moment>, p: Policy) {
    && ms != [] && ms[0].g.restarts == 0
    && forall k {:trigger Follows(ms[k], p, ms[k + 1])} :: 0 <= k < |ms| - 1 ==> Follows(ms[k], p, ms[k + 1])
  }

  ghost predicate Restarts(m: Moment, p: Policy) {
    m.faults && RestartGuest(m.g, p, Tick(m.tick)).st == Restarting
  }

  ghost predicate OpensAt(m: Moment, p: Policy) {
    m.faults && Opens(m.g, p, Tick(m.tick))
  }

  /** Restarts granted at moments a .. b-1. */
  ghost function Granted(ms: seq<Moment>, p: Policy, a: nat, b: nat): nat
    requires a <= b <= |ms|
    decreases b
  {
    if a == b then 0 else Granted(ms, p, a, b - 1) + if Restarts(ms[b - 1], p) then 1 else 0
  }

  /** The unbounded tick at which the accounting window in force before moment k was opened. */
  ghost function OpenedAt(ms: seq<Moment>, p: Policy, k: nat): nat
    requires k <= |ms|
  {
    if k == 0 then 0
    else if OpensAt(ms[k - 1], p) then ms[k - 1].tick
    else OpenedAt(ms, p, k - 1)
  }

  lemma TickSub(a: nat, b: nat)
    requires b <= a
    ensures Sub32(Tick(a), Tick(b)) <= a - b
    decreases a
  {
    if a < b + TWO32 { ModularAge(a, b); }
  }

  /** What the two counters mean: at most L restarts in the window in force, and `first` is the
      tick at which it was opened. */
  lemma {:induction false} CountersMean(ms: seq<Moment>, p: Policy, k: nat)
    requires IsLife(ms, p) && k < |ms| && p.limit > 0
    ensures ms[k].g.restarts <= p.limit
    ensures ms[k].g.restarts > 0 ==> ms[k].g.first == Tick(OpenedAt(ms, p, k))
    ensures OpenedAt(ms, p, k) <= ms[k].tick
  {
    if k > 0 {
      var j := k - 1;
      CountersMean(ms, p, j);
      assert Follows(ms[j], p, ms[j + 1]);
    }
  }

  /** A window is replaced only after W ticks. */
  lemma ReopensLate(ms: seq<Moment>, p: Policy, k: nat)
    requires IsLife(ms, p) && k < |ms| && OpensAt(ms[k], p) && ms[k].g.restarts > 0
    ensures p.window > 0 && ms[k].tick >= OpenedAt(ms, p, k) + p.window
  {
    CountersMean(ms, p, k);
    TickSub(ms[k].tick, OpenedAt(ms, p, k));
  }

  /** 1 if the window in force at moment b was opened before the tick of moment a. */
  ghost function OpenedBefore(ms: seq<Moment>, p: Policy, a: nat, b: nat): nat
    requires a <= b < |ms|
  {
    if ms[b].g.restarts > 0 && OpenedAt(ms, p, b) < ms[a].tick then 1 else 0
  }

  /** Either no window was opened since moment a, so that all restarts granted since are counted in the
      window in force, together with the one that opened it, if that was earlier; or that window was
      opened since, so that they fall into two windows, the first of which was opened before. */
  lemma {:induction false} GrantedSplits(ms: seq<Moment>, p: Policy, a: nat, b: nat)
    requires IsLife(ms, p) && a <= b < |ms| && p.limit > 0
    requires p.window == 0 || ms[b].tick < ms[a].tick + p.window
    ensures || Granted(ms, p, a, b) + OpenedBefore(ms, p, a, b) <= ms[b].g.restarts
            || (&& OpenedAt(ms, p, b) >= ms[a].tick && ms[b].g.restarts > 0
                && Granted(ms, p, a, b) <= p.limit - 1 + ms[b].g.restarts)
    decreases b
  {
    if a < b {
      var j := b - 1;
      assert Follows(ms[j], p, ms[j + 1]);
      GrantedSplits(ms, p, a, j);
      CountersMean(ms, p, j);
      if OpensAt(ms[j], p) {
        TicksRise(ms, p, a, j);
        if ms[j].g.restarts > 0 { ReopensLate(ms, p, j); }
      }
    }
  }

  lemma {:induction false} TicksRise(ms: seq<Moment>, p: Policy, a: nat, b: nat)
    requires IsLife(ms, p) && a <= b < |ms|
    ensures ms[a].tick <= ms[b].tick
  {
    if a < b {
      TicksRise(ms, p, a, b - 1);
      var j := b - 1;
      assert Follows(ms[j], p, ms[j + 1]);
    }
  }

  /** The restart bound: any W consecutive ticks contain at most 2L - 1 restarts of a guest, also when
      the 32-bit tick counter wraps in between. */
  lemma RestartBound(ms: seq<Moment>, p: Policy, a: nat, b: nat)
    requires IsLife(ms, p) && a <= b < |ms| && p.limit > 0 && p.window > 0
    requires ms[b].tick < ms[a].tick + p.window
    ensures Granted(ms, p, a, b) <= 2 * p.limit - 1
  {
    GrantedSplits(ms, p, a, b);
    CountersMean(ms, p, b);
  }

  /** Moment k of a guest that faults at tick 0 and then at 2L - 1 ticks in a row, L - 1 of them just
      before the first window ends. */
  function BurstMoment(p: Policy, k: nat): Moment
    requires 0 < 2 * p.limit <= p.window + 1
  {
    var t := if k == 0 then 0 else if k < 2 * p.limit then p.window - p.limit + k else p.window + p.limit - 1;
    Moment(Guest(Ready, 0, if k <= p.limit then k else if k <= 2 * p.limit then k - p.limit else 0,
                 if k <= p.limit then 0 else Tick(p.window)), t, k < 2 * p.limit)
  }

  function Burst(p: Policy): (ms: seq<Moment>)
    requires 0 < 2 * p.limit <= p.window + 1
    ensures |ms| == 2 * p.limit + 1
  {
    seq(2 * p.limit + 1, k requires 0 <= k => BurstMoment(p, k))
  }

  lemma BurstStep(p: Policy, k: nat)
    requires 0 < 2 * p.limit <= p.window + 1 && k < 2 * p.limit
    ensures Follows(BurstMoment(p, k), p, BurstMoment(p, k + 1)) && Restarts(BurstMoment(p, k), p)
  {
    var t := BurstMoment(p, k).tick;
    if k > p.limit { ModularAge(t, p.window); }
  }

  lemma {:induction false} BurstGranted(p: Policy, b: nat)
    requires 0 < 2 * p.limit <= p.window + 1 && 0 < b <= 2 * p.limit
    ensures Granted(Burst(p), p, 1, b) == b - 1
  {
    if b > 1 {
      BurstGranted(p, b - 1);
      BurstStep(p, b - 1);
    }
  }

  /** The bound is attained, by restarts in different ticks: for every L > 0 and W >= 2L - 1 there is a
      life with 2L - 1 restarts in W consecutive ticks. */
  lemma RestartBoundIsSharp(p: Policy)
    requires 0 < 2 * p.limit <= p.window + 1
    ensures var ms, b := Burst(p), 2 * p.limit;
            && IsLife(ms, p) && ms[b].tick < ms[1].tick + p.window
            && Granted(ms, p, 1, b) == 2 * p.limit - 1
            && forall k, l :: 1 <= k < l < b ==> ms[k].tick < ms[l].tick
  {
    var ms := Burst(p);
    forall k | 0 <= k < |ms| - 1 ensures Follows(ms[k], p, ms[k + 1]) { BurstStep(p, k); }
    BurstGranted(p, 2 * p.limit);
  }

  /** Without a window there are at most L restarts, ever. */
  lemma {:induction false} RestartsEver(ms: seq<Moment>, p: Policy, b: nat)
    requires IsLife(ms, p) && b < |ms| && p.limit > 0 && p.window == 0
    ensures Granted(ms, p, 0, b) == ms[b].g.restarts <= p.limit
  {
    if b > 0 {
      var j := b - 1;
      RestartsEver(ms, p, j);
      assert Follows(ms[j], p, ms[j + 1]);
    }
  }

  /** Window openings lie at least W ticks apart. */
  lemma WindowsApart(ms: seq<Moment>, p: Policy, a: nat, b: nat)
    requires IsLife(ms, p) && a < b < |ms| && OpensAt(ms[a], p) && OpensAt(ms[b], p)
    ensures p.window > 0 && ms[b].tick >= ms[a].tick + p.window
  {
    StaysOpen(ms, p, a, b);
    ReopensLate(ms, p, b);
  }

  lemma {:induction false} StaysOpen(ms: seq<Moment>, p: Policy, a: nat, b: nat)
    requires IsLife(ms, p) && a < b < |ms| && OpensAt(ms[a], p)
    ensures ms[b].g.restarts > 0 && OpenedAt(ms, p, b) >= ms[a].tick
    decreases b
  {
    var j := b - 1;
    assert Follows(ms[j], p, ms[j + 1]);
    TicksRise(ms, p, a, j);
    if a < j { StaysOpen(ms, p, a, j); CountersMean(ms, p, j); }
  }

  // ---------------------------------------------------------------- the rule of restarts

  /** The books of a guest's faults, kept from their ticks alone: how many restarts were granted since the
      accounting window in force was opened, and when that was. */
  datatype Account = Account(granted: nat, since: nat)

  /** The window has run out, as far as 32 bits of time can tell. */
  predicate Lapsed(a: Account, p: Policy, t: nat)
    requires a.since <= t
  {
    p.window > 0 && (t - a.since) % TWO32 >= p.window
  }

  predicate GivesUp(a: Account, p: Policy, t: nat)
    requires a.since <= t
  {
    p.limit > 0 && a.granted >= p.limit && !Lapsed(a, p, t)
  }

  function Booked(a: Account, p: Policy, t: nat): Account
    requires a.since <= t
  {
    if GivesUp(a, p, t) then a
    else if a.granted == 0 || Lapsed(a, p, t) then Account(1, t)
    else Account(a.granted + 1, a.since)
  }

  ghost function AccountAt(ms: seq<Moment>, p: Policy, k: nat): (a: Account)
    requires IsLife(ms, p) && k < |ms|
    ensures a.since <= ms[k].tick
  {
    if k == 0 then Account(0, 0)
    else
      var j := k - 1;
      var a := AccountAt(ms, p, j);
      assert Follows(ms[j], p, ms[j + 1]);
      if ms[j].faults then Booked(a, p, ms[j].tick) else a
  }

  lemma SubIsMod(a: nat, b: nat)
    requires b <= a
    ensures Sub32(Tick(a), Tick(b)) == (a - b) % TWO32
    decreases a
  {
    if a >= b + TWO32 {
      SubIsMod(a - TWO32, b);
    } else {
      ModularAge(a, b);
    }
  }

  /** The code's counters are those books, whenever there is a limit. */
  ghost predicate KeepsBooks(g: Guest, a: Account) {
    g.restarts == a.granted && (a.granted > 0 ==> g.first == Tick(a.since))
  }

  lemma FaultKeepsBooks(g: Guest, p: Policy, t: nat, a: Account)
    requires p.limit > 0 && a.since <= t && KeepsBooks(g, a) && a.granted <= p.limit
    ensures KeepsBooks(RestartGuest(g, p, Tick(t)), Booked(a, p, t)) && Booked(a, p, t).granted <= p.limit
    ensures RestartGuest(g, p, Tick(t)).st == if GivesUp(a, p, t) then Faulted else Restarting
    ensures !GivesUp(a, p, t) ==> RestartGuest(g, p, Tick(t)).delay == p.delay
  {
    SubIsMod(t, a.since);
  }

  lemma {:induction false} CountersAgree(ms: seq<Moment>, p: Policy, k: nat)
    requires IsLife(ms, p) && k < |ms| && p.limit > 0
    ensures KeepsBooks(ms[k].g, AccountAt(ms, p, k)) && AccountAt(ms, p, k).granted <= p.limit
  {
    if k > 0 {
      var j := k - 1;
      CountersAgree(ms, p, j);
      assert Follows(ms[j], p, ms[j + 1]);
      if ms[j].faults { FaultKeepsBooks(ms[j].g, p, ms[j].tick, AccountAt(ms, p, j)); }
    }
  }

  /** What becomes of a guest that faults at moment k, for every life: it is given up if and only if there
      is a limit, that many restarts were granted since the window in force was opened, and the window
      has not run out; otherwise it is restarted with the policy's delay. */
  lemma RestartRule(ms: seq<Moment>, p: Policy, k: nat)
    requires IsLife(ms, p) && k < |ms|
    ensures var g, a := RestartGuest(ms[k].g, p, Tick(ms[k].tick)), AccountAt(ms, p, k);
            && (g.st == Faulted <==> p.limit > 0 && a.granted == p.limit && !Lapsed(a, p, ms[k].tick))
            && (g.st != Faulted ==> g.st == Restarting && g.delay == p.delay)
  {
    if p.limit > 0 {
      CountersAgree(ms, p, k);
      FaultKeepsBooks(ms[k].g, p, ms[k].tick, AccountAt(ms, p, k));
    }
  }

  /** With fewer than 2^32 ticks since the window was opened, it has run out if and only if W ticks have
      passed, and a window of 0 never does. */
  lemma LapsedIsElapsed(ms: seq<Moment>, p: Policy, k: nat)
    requires IsLife(ms, p) && k < |ms|
    requires ms[k].tick < AccountAt(ms, p, k).since + TWO32
    ensures var a := AccountAt(ms, p, k);
            Lapsed(a, p, ms[k].tick) <==> p.window > 0 && ms[k].tick - a.since >= p.window
  {}

  /** That bound is needed: a guest restarted once at tick 0 under a limit of 1 is given up at tick 2^32
      although its window of 64 ticks is long over. */
  lemma AncientWindowStillCounts()
    ensures var p := Policy(1, 64, 1, true);
            var ms := [Moment(Guest(Ready, 0, 0, 0), 0, true), Moment(Guest(Ready, 0, 1, 0), TWO32, true)];
            IsLife(ms, p) && RestartGuest(ms[1].g, p, Tick(ms[1].tick)).st == Faulted
  {
    assert Tick(TWO32) == 0;
  }

  // ---------------------------------------------------------------- entry points as functions

  /** wt_save_running_guest: a running guest becomes ready, one that waits for its tasklet stays. */
  function SaveRunning(m: Mon): Mon
    requires m.cur < |m.gs| || m.gs == []
  {
    if m.gs == [] || m.rep != NonSecure || m.gs[m.cur].st != Running then m
    else m.(gs := m.gs[m.cur := m.gs[m.cur].(st := Ready)])
  }

  function DispatchGuest(m: Mon, g: nat): Mon
    requires g < |m.gs|
  {
    m.(gs := m.gs[g := m.gs[g].(st := Running)], cur := g, rep := NonSecure)
  }

  function DispatchTasklet(m: Mon, g: nat): (Mon, Verdict)
    requires g < |m.gs|
  {
    if m.gs[g].st != WaitingHsm then (m, Panic) else (m.(cur := g, rep := Hsm), EnterTasklet(g))
  }

  /** One round of wt_schedule_next_guest; `handler` tells whether it runs in Handler mode. */
  function ScheduleNext(m: Mon, hsm: seq<bool>, handler: bool): (Mon, Verdict)
    requires |hsm| == |m.gs| && (m.cur < |m.gs| || m.gs == [])
  {
    if m.gs == [] then (m, AllFaulted)
    else
      var g := FindFrom(m.gs, hsm, Cyc(m.cur + 1, |m.gs|), 0);
      if g == |m.gs| then (m, AllFaulted)
      else if m.gs[g].st != WaitingHsm then (DispatchGuest(m, g), EnterGuest(g))
      else if handler then (m, Defer(g))
      else DispatchTasklet(m, g)
  }

  /** wt_monitor_on_secure_timer. */
  function OnTimer(m: Mon, hsm: seq<bool>, trap: Trap): (Mon, TimerEnd)
    requires |hsm| == |m.gs| && (m.cur < |m.gs| || m.gs == [])
  {
    var m := m.(ticks := if m.ticks == 0xFFFF_FFFF then 0 else m.ticks + 1);
    match trap
    case InTasklet(g) =>
      var m := m.(gs := Backoff(m.gs));
      (m, if g >= |m.gs| || m.gs[g].st == WaitingHsm then Preempts else Back)
    case InService => (m, Back)
    case InSecure => (m.(gs := Backoff(m.gs)), Back)
    case InGuest =>
      var m := SaveRunning(m);
      var (m, v) := ScheduleNext(m.(gs := Backoff(m.gs)), hsm, true);
      (m, Decides(v))
  }

  function Punish(m: Mon, ps: seq<Policy>): Mon
    requires m.cur < |m.gs| == |ps|
  {
    m.(gs := m.gs[m.cur := RestartGuest(m.gs[m.cur], ps[m.cur], m.ticks)])
  }

  /** wt_monitor_on_guest_fault: the current guest is restarted or given up, then the next one runs. */
  function OnFault(m: Mon, ps: seq<Policy>, hsm: seq<bool>): (Mon, Verdict)
    requires |hsm| == |ps| == |m.gs| && m.cur < |m.gs|
  {
    ScheduleNext(Punish(m, ps), hsm, true)
  }

  function RequestPending(g: Guest): Guest {
    if g.st == Faulted || g.st == Restarting then g else g.(st := WaitingHsm)
  }

  function ResponseReady(g: Guest): Guest {
    if g.st == WaitingHsm then g.(st := Ready) else g
  }

  /** A request makes a guest wait unless it is given up or being restarted; a response makes a waiting one
      ready; neither touches delay or counters. */
  lemma RequestAndResponse(g: Guest)
    ensures var r := RequestPending(g);
            && (r.delay, r.restarts, r.first) == (g.delay, g.restarts, g.first)
            && r.st == if g.st == Stopped || g.st == Ready || g.st == Running || g.st == WaitingHsm then WaitingHsm else g.st
    ensures var r := ResponseReady(g);
            && (r.delay, r.restarts, r.first) == (g.delay, g.restarts, g.first)
            && (r.st != g.st <==> g.st == WaitingHsm) && (r.st != g.st ==> r.st == Ready)
  {}

  /** The wrong-state panic of the tasklet dispatcher cannot follow a decision: only a guest that
      waits for its tasklet is chosen for it. */
  lemma DecisionsNeverPanic(m: Mon, hsm: seq<bool>, handler: bool)
    requires |hsm| == |m.gs| && (m.cur < |m.gs| || m.gs == [])
    ensures var (m', v) := ScheduleNext(m, hsm, handler);
            && v != Panic
            && (v == AllFaulted <==> forall i :: 0 <= i < |m.gs| ==> !Eligible(m.gs[i], hsm[i]))
            && (v.EnterGuest? ==> v.g < |m.gs| && (m.gs[v.g].st == Ready || m.gs[v.g].st == Running)
                                  && m' == DispatchGuest(m, v.g))
            && (v.Defer? || v.EnterTasklet? ==> v.g < |m.gs| && m.gs[v.g].st == WaitingHsm && hsm[v.g])
  {
    if m.gs != [] { FindsNearest(m.gs, hsm, Cyc(m.cur + 1, |m.gs|)); }
  }

  // ---------------------------------------------------------------- the scheduler object

  class Partitions {
    const runtime: array<Guest>
    const policies: seq<Policy>
    var current: nat
    var rep: Rep
    var ticks: u32

    ghost predicate Valid() reads this {
      |policies| == runtime.Length && (current < runtime.Length || runtime.Length == 0)
    }

    ghost function V(): Mon reads this, runtime {
      Mon(runtime[..], current, rep, ticks)
    }

    /** wt_monitor_init. */
    constructor (policies: seq<Policy>)
      ensures Valid() && fresh(runtime) && this.policies == policies
      ensures V().gs == seq(|policies|, i => Guest(Ready, 0, 0, 0))
      ensures current == 0 && rep == NonSecure && ticks == 0
    {
      this.policies := policies;
      runtime := new Guest[|policies|](i => Guest(Ready, 0, 0, 0));
      current, rep, ticks := 0, NonSecure, 0;
    }

    /** wt_find_next_runnable; guest_count stands for "none". */
    method FindNextRunnable(start: nat, hsm: seq<bool>) returns (r: nat)
      requires |hsm| == runtime.Length && start < runtime.Length
      ensures r == FindFrom(runtime[..], hsm, start, 0)
    {
      var attempts := 0;
      while attempts < runtime.Length
        invariant attempts <= runtime.Length
        invariant FindFrom(runtime[..], hsm, start, 0) == FindFrom(runtime[..], hsm, start, attempts)
      {
        CycIsMod(start + attempts, runtime.Length);
        var candidate := (start + attempts) % runtime.Length;
        var g := runtime[candidate];
        assert Candidate(runtime[..], hsm, start, attempts) == Eligible(g, hsm[candidate]);
        if g.delay > 0 {
        } else if g.st == WaitingHsm {
          if hsm[candidate] { return candidate; }
        } else if g.st == Ready || g.st == Running {
          return candidate;
        }
        attempts := attempts + 1;
      }
      r := runtime.Length;
    }

    /** wt_tick_restart_backoff. */
    method TickBackoff()
      modifies runtime
      ensures runtime[..] == Backoff(old(runtime[..]))
    {
      var i := 0;
      while i < runtime.Length
        invariant i <= runtime.Length
        invariant forall k :: 0 <= k < runtime.Length ==>
          runtime[k] == if k < i then BackoffGuest(old(runtime[k])) else old(runtime[k])
      {
        if runtime[i].delay > 0 {
          runtime[i] := runtime[i].(delay := runtime[i].delay - 1);
          if runtime[i].delay == 0 && runtime[i].st == Restarting {
            runtime[i] := ResetGuest(runtime[i]);
          }
        }
        i := i + 1;
      }
    }

    /** wt_restart_guest; `clear` tells the caller to zero the guest's restart-clear window. */
    method Restart(i: nat) returns (clear: bool)
      requires Valid() && i < runtime.Length
      modifies runtime
      ensures runtime[..] == old(runtime[..])[i := RestartGuest(old(runtime[i]), policies[i], ticks)]
      ensures clear == (runtime[i].st == Restarting && policies[i].clears)
    {
      var p := policies[i];
      if p.limit > 0 {
        if runtime[i].restarts == 0 || (p.window > 0 && Sub32(ticks, runtime[i].first) >= p.window) {
          runtime[i] := runtime[i].(restarts := 0, first := ticks);
        }
        if runtime[i].restarts >= p.limit {
          runtime[i] := runtime[i].(st := Faulted);
          return false;
        }
      }
      if runtime[i].restarts == 0 {
        runtime[i] := runtime[i].(first := ticks);
      }
      var n := runtime[i].restarts;
      runtime[i] := runtime[i].(restarts := if n == 0xFFFF_FFFF then 0 else n + 1);
      runtime[i] := runtime[i].(st := Restarting);
      runtime[i] := runtime[i].(delay := p.delay);
      clear := p.clears;
    }

    /** wt_save_running_guest. */
    method SaveRunningGuest()
      requires Valid()
      modifies runtime
      ensures V() == SaveRunning(old(V()))
    {
      if runtime.Length == 0 || rep != NonSecure { return; }
      var g := runtime[current];
      if g.st == Running || g.st == WaitingHsm {
        runtime[current] := g.(st := if g.st == WaitingHsm then WaitingHsm else Ready);
      }
    }

    /** wt_dispatch_guest. */
    method EnterGuestCode(g: nat)
      requires Valid() && g < runtime.Length
      modifies this, runtime
      ensures Valid() && V() == DispatchGuest(old(V()), g)
    {
      runtime[g] := runtime[g].(st := Running);
      current := g;
      rep := NonSecure;
    }

    /** wt_dispatch_hsm_tasklet up to the resume. */
    method EnterTaskletOf(g: nat) returns (v: Verdict)
      requires Valid() && g < runtime.Length
      modifies this
      ensures Valid() && (V(), v) == DispatchTasklet(old(V()), g)
    {
      if runtime[g].st != WaitingHsm { return Panic; }
      current := g;
      rep := Hsm;
      v := EnterTasklet(g);
    }

    /** One round of wt_schedule_next_guest. */
    method ScheduleNextGuest(hsm: seq<bool>, handler: bool) returns (v: Verdict)
      requires Valid() && |hsm| == runtime.Length
      modifies this, runtime
      ensures Valid() && (V(), v) == ScheduleNext(old(V()), hsm, handler)
    {
      if runtime.Length == 0 { return AllFaulted; }
      CycIsMod(current + 1, runtime.Length);
      var next := FindNextRunnable((current + 1) % runtime.Length, hsm);
      if next >= runtime.Length { return AllFaulted; }
      if runtime[next].st != WaitingHsm {
        EnterGuestCode(next);
        return EnterGuest(next);
      }
      if handler { return Defer(next); }
      v := EnterTaskletOf(next);
    }

    /** wt_monitor_on_secure_timer. */
    method OnSecureTimer(hsm: seq<bool>, trap: Trap) returns (e: TimerEnd)
      requires Valid() && |hsm| == runtime.Length
      modifies this, runtime
      ensures Valid() && (V(), e) == OnTimer(old(V()), hsm, trap)
    {
      ticks := if ticks == 0xFFFF_FFFF then 0 else ticks + 1;
      match trap
      case InTasklet(g) =>
        TickBackoff();
        return if g >= runtime.Length || runtime[g].st == WaitingHsm then Preempts else Back;
      case InService => return Back;
      case InSecure => TickBackoff(); return Back;
      case InGuest =>
        SaveRunningGuest();
        TickBackoff();
        var v := ScheduleNextGuest(hsm, true);
        e := Decides(v);
    }

    /** wt_monitor_on_guest_fault. */
    method OnGuestFault(hsm: seq<bool>) returns (v: Verdict, clear: bool)
      requires Valid() && |hsm| == runtime.Length > 0
      modifies this, runtime
      ensures Valid() && (V(), v) == OnFault(old(V()), policies, hsm)
      ensures clear == (Punish(old(V()), policies).gs[old(current)].st == Restarting && policies[old(current)].clears)
    {
      clear := Restart(current);
      v := ScheduleNextGuest(hsm, true);
    }

    method HsmRequestPending(i: nat)
      requires Valid() && i < runtime.Length
      modifies runtime
      ensures V() == old(V()).(gs := old(V()).gs[i := RequestPending(old(runtime[i]))])
    {
      if runtime[i].st == Faulted || runtime[i].st == Restarting { return; }
      runtime[i] := runtime[i].(st := WaitingHsm);
    }

    method HsmResponseReady(i: nat)
      requires Valid() && i < runtime.Length
      modifies runtime
      ensures V() == old(V()).(gs := old(V()).gs[i := ResponseReady(old(runtime[i]))])
    {
      if runtime[i].st == WaitingHsm {
        runtime[i] := runtime[i].(st := Ready);
      }
    }
  }
}
