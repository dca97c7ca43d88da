/** One hardware SysTick shared by all guests (wt_platform_prepare_guest_return and
    wt_platform_zero_guest_memory in src/port/stm32h563/platform_stm32h563.c): which virtual timer is
    saved, restored and reset when, over whole runs. */
module SysTickGuests {
  import opened Base
  import opened SysTick

  /** The hardware timer, the guests' virtual ones, the guest the hardware serves (at boot a number
      behind the table) and the wall clock. */
  datatype Chip = Chip(hw: Hw, ts: seq<Systick>, active: nat, clock: nat)

  /** Code runs and leaves the hardware timer as it may; secure timer ticks; a guest's window is
      cleared; a guest is returned to. */
  datatype Event = HwRuns(hw: Hw) | ClockRuns(cycles: nat) | Clear(i: nat) | Return(i: nat)

  // ---------------------------------------------------------------- specification

  predicate ClockOk(c: Chip) {
    forall i :: 0 <= i < |c.ts| ==> c.ts[i].last <= c.clock
  }

  function Stopped(hw: Hw): Hw {
    hw.(enable := false, tickint := false, pending := false)
  }

  /** wt_virtual_systick_save_departing */
  function Depart(c: Chip): (d: Chip)
    requires ClockOk(c)
    ensures ClockOk(d) && |d.ts| == |c.ts|
  {
    if c.active >= |c.ts| then c.(hw := Stopped(c.hw))
    else c.(hw := Stopped(c.hw), ts := c.ts[c.active := Save(c.ts[c.active], c.hw, c.clock)])
  }

  /** wt_virtual_systick_restore_arriving: the hardware counter starts a new period. */
  function Arrive(c: Chip, i: nat): (d: Chip)
    requires ClockOk(c)
    ensures ClockOk(d) && |d.ts| == |c.ts|
  {
    if i >= |c.ts| then c.(active := i, hw := c.hw.(pending := false))
    else
      var (t, pend) := Restore(c.ts[i], c.clock);
      c.(active := i, ts := c.ts[i := t], hw := Hw(t.enable, t.enable && t.tickint, t.rvr, 0, pend))
  }

  function Step(c: Chip, e: Event): (d: Chip)
    requires ClockOk(c)
    ensures ClockOk(d) && |d.ts| == |c.ts| && d.clock >= c.clock
  {
    match e
    case HwRuns(hw) => c.(hw := hw)
    case ClockRuns(n) => c.(clock := c.clock + n)
    case Clear(i) => if i < |c.ts| then c.(ts := c.ts[i := Fresh(c.clock)]) else c
    case Return(i) => Arrive(Depart(c), i)
  }

  function Play(c: Chip, es: seq<Event>): (d: Chip)
    requires ClockOk(c)
    ensures ClockOk(d) && |d.ts| == |c.ts| && d.clock >= c.clock
  {
    if es == [] then c else Step(Play(c, es[..|es| - 1]), es[|es| - 1])
  }

  function Boot(n: nat, hw: Hw): (c: Chip)
    requires n <= MAX32
    ensures ClockOk(c)
  {
    Chip(hw, seq(n, _ => Fresh(0)), MAX32, 0)
  }

  // ---------------------------------------------------------------- what a single timer sees

  function Seen(c: Chip, e: Event, i: nat): seq<Op> {
    match e
    case Clear(j) => if i == j then [ResetOp(c.clock)] else []
    case Return(j) =>
      (if i == c.active then [SaveOp(c.hw, c.clock)] else []) + (if i == j then [RestoreOp(c.clock)] else [])
    case _ => []
  }

  function Log(c: Chip, es: seq<Event>, i: nat): seq<Op>
    requires ClockOk(c)
  {
    if es == [] then []
    else
      var n := |es| - 1;
      Log(c, es[..n], i) + Seen(Play(c, es[..n]), es[n], i)
  }

  function After(t: Systick, op: Op): Systick
    requires op.RestoreOp? ==> op.w >= t.last
  {
    match op
    case SaveOp(hw, w) => Save(t, hw, w)
    case RestoreOp(w) => Restore(t, w).0
    case ResetOp(w) => Fresh(w)
  }

  lemma RunSnoc(b: Books, ops: seq<Op>, op: Op)
    requires op.RestoreOp? ==> op.w >= Run(b, ops).t.last
    ensures Run(b, ops + [op]).t == After(Run(b, ops).t, op)
  {
    assert (ops + [op])[..|ops|] == ops;
  }

  lemma StepIsLogged(c: Chip, e: Event, i: nat, b: Books, ops: seq<Op>)
    requires ClockOk(c) && i < |c.ts| && Run(b, ops).t == c.ts[i]
    ensures Run(b, ops + Seen(c, e, i)).t == Step(c, e).ts[i]
  {
    if e.Return? {
      ReturnIsLogged(c, e.i, i, b, ops);
    } else if e.Clear? && e.i == i {
      RunSnoc(b, ops, ResetOp(c.clock));
      assert Step(c, e).ts[i] == Fresh(c.clock);
    } else {
      NotConcerned(c, e, i);
      assert ops + [] == ops;
    }
  }

  lemma NotConcerned(c: Chip, e: Event, i: nat)
    requires ClockOk(c) && i < |c.ts| && !e.Return? && !(e.Clear? && e.i == i)
    ensures Seen(c, e, i) == [] && Step(c, e).ts[i] == c.ts[i]
  {}

  function Left(c: Chip, i: nat): (t: Systick)
    requires ClockOk(c) && i < |c.ts|
    ensures t == Depart(c).ts[i] && t.last <= c.clock
  {
    if i == c.active then After(c.ts[i], SaveOp(c.hw, c.clock)) else c.ts[i]
  }

  lemma ReturnEffect(c: Chip, j: nat, i: nat)
    requires ClockOk(c) && i < |c.ts|
    ensures Step(c, Return(j)).ts[i] == if i == j then After(Left(c, i), RestoreOp(c.clock)) else Left(c, i)
  {
    var d := Depart(c);
    assert d.clock == c.clock && d.ts[i] == Left(c, i);
  }

  lemma ReturnIsLogged(c: Chip, j: nat, i: nat, b: Books, ops: seq<Op>)
    requires ClockOk(c) && i < |c.ts| && Run(b, ops).t == c.ts[i]
    ensures Run(b, ops + Seen(c, Return(j), i)).t == Step(c, Return(j)).ts[i]
  {
    var sv, re := SaveOp(c.hw, c.clock), RestoreOp(c.clock);
    var ops1 := if i == c.active then ops + [sv] else ops;
    if i == c.active { RunSnoc(b, ops, sv); }
    assert Run(b, ops1).t == Left(c, i);
    ReturnEffect(c, j, i);
    if i == j {
      RunSnoc(b, ops1, re);
      assert ops1 + [re] == ops + Seen(c, Return(j), i);
    } else {
      assert ops1 == ops + Seen(c, Return(j), i);
    }
  }

  /** On every run each virtual timer goes through exactly the saves, restores and resets of its log. */
  lemma {:induction false} TimersFollowLogs(c: Chip, es: seq<Event>, i: nat)
    requires ClockOk(c) && i < |c.ts|
    ensures Run(NewBooks(c.ts[i]), Log(c, es, i)).t == Play(c, es).ts[i]
  {
    if es != [] {
      var n := |es| - 1;
      TimersFollowLogs(c, es[..n], i);
      StepIsLogged(Play(c, es[..n]), es[n], i, NewBooks(c.ts[i]), Log(c, es[..n], i));
    }
  }

  /** Guest i's timer was just reset, as all are at boot. */
  predicate JustReset(c: Chip, i: nat) {
    i < |c.ts| && c.ts[i] == Fresh(c.ts[i].last)
  }

  lemma BootIsReset(n: nat, hw: Hw, i: nat)
    requires i < n <= MAX32
    ensures JustReset(Boot(n, hw), i) && Boot(n, hw).active >= n
  {}

  lemma NewIsBalanced(t: Systick)
    requires t == Fresh(t.last)
    ensures Balanced(NewBooks(t))
  {}

  /** Conservation on the chip: from boot, or from any other reset, whatever code runs and whoever is
      returned to or cleared, every tick of a guest's timer was delivered once, or lost, or is owed, as
      long as fewer than 2^32 ticks arise between two resets. */
  lemma EveryTickIsBooked(c: Chip, es: seq<Event>, i: nat)
    requires ClockOk(c) && JustReset(c, i) && FewTicks(NewBooks(c.ts[i]), Log(c, es, i))
    ensures var b := Run(NewBooks(c.ts[i]), Log(c, es, i));
            b.t == Play(c, es).ts[i] && Balanced(b)
  {
    NewIsBalanced(c.ts[i]);
    TimersFollowLogs(c, es, i);
    TicksAreConserved(NewBooks(c.ts[i]), Log(c, es, i));
  }

  // ---------------------------------------------------------------- lost ticks

  /** Code never leaves a tick pending with its interrupt off. */
  ghost predicate NeverMasked(es: seq<Event>) {
    forall k :: 0 <= k < |es| ==> NotMasked(es[k])
  }

  predicate NotMasked(e: Event) {
    e.HwRuns? && e.hw.pending ==> e.hw.enable && e.hw.tickint
  }

  /** Nothing was lost, and an outstanding tick is shown. */
  ghost predicate ShowsAll(b: Books) {
    b.lost == 0 && OutIsOwed(b) && (b.out ==> b.shown)
  }

  /** Nothing was lost, and an outstanding tick will be shown. */
  ghost predicate WillShowAll(b: Books) {
    b.lost == 0 && OutIsOwed(b) && (b.out ==> b.t.enable && b.t.tickint)
  }

  ghost predicate Unmasked(hw: Hw) {
    hw.pending ==> hw.enable && hw.tickint
  }

  ghost predicate LosesNothing(c: Chip, i: nat, b: Books) {
    && i < |c.ts| && b.t == c.ts[i] && (c.active < |c.ts| ==> Unmasked(c.hw))
    && if c.active == i then ShowsAll(b) else WillShowAll(b)
  }

  lemma SaveLosesNothing(b: Books, hw: Hw, w: nat)
    requires ShowsAll(b) && Unmasked(hw)
    ensures WillShowAll(Do(b, SaveOp(hw, w)))
  {}

  lemma RestoreLosesNothing(b: Books, w: nat)
    requires WillShowAll(b) && b.t.last <= w
    ensures ShowsAll(Do(b, RestoreOp(w)))
  {}

  lemma ArrivesUnmasked(c: Chip, j: nat)
    requires ClockOk(c)
    ensures j < |c.ts| ==> Unmasked(Step(c, Return(j)).hw)
    ensures Step(c, Return(j)).active == j
  {}

  lemma RunOne(b: Books, ops: seq<Op>, op: Op)
    ensures Run(b, ops + [op]) == if Possible(Run(b, ops), op) then Do(Run(b, ops), op) else Run(b, ops)
  {
    assert (ops + [op])[..|ops|] == ops;
  }

  lemma ReturnLosesNothing(c: Chip, j: nat, i: nat, b: Books, ops: seq<Op>)
    requires ClockOk(c) && LosesNothing(c, i, Run(b, ops))
    ensures LosesNothing(Step(c, Return(j)), i, Run(b, ops + Seen(c, Return(j), i)))
  {
    var sv, re := SaveOp(c.hw, c.clock), RestoreOp(c.clock);
    var ops1 := if i == c.active then ops + [sv] else ops;
    if i == c.active {
      RunOne(b, ops, sv);
      SaveLosesNothing(Run(b, ops), c.hw, c.clock);
    }
    var b1 := Run(b, ops1);
    assert WillShowAll(b1) && b1.t == Left(c, i);
    ReturnIsLogged(c, j, i, b, ops);
    ArrivesUnmasked(c, j);
    if i == j {
      RunOne(b, ops1, re);
      RestoreLosesNothing(b1, c.clock);
      assert ops1 + [re] == ops + Seen(c, Return(j), i);
    } else {
      assert ops1 == ops + Seen(c, Return(j), i);
    }
  }

  lemma StepLosesNothing(c: Chip, e: Event, i: nat, b: Books, ops: seq<Op>)
    requires ClockOk(c) && LosesNothing(c, i, Run(b, ops)) && NotMasked(e)
    ensures LosesNothing(Step(c, e), i, Run(b, ops + Seen(c, e, i)))
  {
    if e.Return? {
      ReturnLosesNothing(c, e.i, i, b, ops);
    } else if e == Clear(i) {
      RunOne(b, ops, ResetOp(c.clock));
    } else {
      assert Seen(c, e, i) == [] && ops + [] == ops;
    }
  }

  lemma {:induction false} StillLosesNothing(c: Chip, es: seq<Event>, i: nat)
    requires ClockOk(c) && JustReset(c, i) && (c.active < |c.ts| ==> Unmasked(c.hw)) && NeverMasked(es)
    ensures LosesNothing(Play(c, es), i, Run(NewBooks(c.ts[i]), Log(c, es, i)))
  {
    if es != [] {
      var m := |es| - 1;
      StillLosesNothing(c, es[..m], i);
      StepLosesNothing(Play(c, es[..m]), es[m], i, NewBooks(c.ts[i]), Log(c, es[..m], i));
    }
  }

  /** From boot, or any other reset, no tick of the guest is lost, as long as no code leaves a tick pending
      with its interrupt off: with fewer than 2^32 ticks, each one was delivered once or is still owed. */
  lemma NoTickIsLost(c: Chip, es: seq<Event>, i: nat)
    requires ClockOk(c) && JustReset(c, i) && (c.active < |c.ts| ==> Unmasked(c.hw)) && NeverMasked(es)
    requires FewTicks(NewBooks(c.ts[i]), Log(c, es, i))
    ensures var b := Run(NewBooks(c.ts[i]), Log(c, es, i));
            i < |Play(c, es).ts| && b.lost == 0 && b.delivered + Play(c, es).ts[i].owed == b.total
  {
    StillLosesNothing(c, es, i);
    EveryTickIsBooked(c, es, i);
  }

  /** That is needed: guest 0 comes back with a tick owed, turns its interrupt off while the tick is pending,
      and leaves. When it comes back the hardware does not show the tick, and the next save takes it off. */
  lemma MaskedTickIsLost(cycles: nat)
    requires cycles > 0
    ensures var off, on := Hw(true, false, 99, 50, true), Hw(true, true, 99, 50, true);
            var gone := Hw(true, false, 99, 40, false);
            var c1 := Step(Step(Step(Boot(2, off), ClockRuns(cycles)), Return(0)), HwRuns(on));
            var c2 := Step(Step(Step(c1, Return(1)), Return(0)), HwRuns(off));
            var c3 := Step(Step(c2, Return(1)), Return(0));
            var c4 := Step(Step(c3, HwRuns(gone)), Return(1));
            && c1.ts[0].owed == 0 && c2.ts[0].owed == 1 && c3.ts[0].owed == 1 && !c3.hw.pending
            && c4.ts[0].owed == 0
  {
    var off, on := Hw(true, false, 99, 50, true), Hw(true, true, 99, 50, true);
    var c0 := Step(Step(Boot(2, off), ClockRuns(cycles)), Return(0));
    assert c0.ts[0] == CatchUp(Fresh(0), cycles) == Fresh(cycles);
    var c1 := Step(c0, HwRuns(on));
    var t := Systick(true, true, 99, 50, cycles, 1, 1, true);
    assert Step(c1, Return(1)).ts[0] == t;
    var c2 := Step(Step(c1, Return(1)), Return(0));
    assert c2.ts[0] == t;
    var c3 := Step(Step(c2, HwRuns(off)), Return(1));
    assert c3.ts[0] == t.(tickint := false);
    var c4 := Step(c3, Return(0));
    assert c4.ts[0] == t.(tickint := false) && !c4.hw.pending;
  }

  // ---------------------------------------------------------------- no two catch-ups in a row

  ghost predicate SavedSince(log: seq<Op>, j: int) {
    exists m :: j < m < |log| && 0 <= m && log[m].SaveOp?
  }

  ghost predicate SavedBetween(log: seq<Op>, j: int, k: int) {
    exists m :: j < m < k && 0 <= m < |log| && log[m].SaveOp?
  }

  ghost predicate Alternates(log: seq<Op>) {
    forall j, k :: 0 <= j < k < |log| && log[j].RestoreOp? && log[k].RestoreOp? ==> SavedBetween(log, j, k)
  }

  ghost predicate AllSaved(log: seq<Op>) {
    forall j :: 0 <= j < |log| && log[j].RestoreOp? ==> SavedSince(log, j)
  }

  lemma LogGrows(log: seq<Op>, op: Op)
    requires Alternates(log) && (op.RestoreOp? ==> AllSaved(log))
    ensures Alternates(log + [op])
    ensures op.SaveOp? || (op.ResetOp? && AllSaved(log)) ==> AllSaved(log + [op])
  {
    var l := log + [op];
    forall j, k | 0 <= j < k < |l| && l[j].RestoreOp? && l[k].RestoreOp? ensures SavedBetween(l, j, k) {
      if k < |log| {
        assert SavedBetween(log, j, k);
        var m :| j < m < k && 0 <= m < |log| && log[m].SaveOp?;
        assert l[m].SaveOp?;
      } else {
        assert SavedSince(log, j);
        var m :| j < m < |log| && 0 <= m && log[m].SaveOp?;
        assert l[m].SaveOp?;
      }
    }
    if op.SaveOp? || (op.ResetOp? && AllSaved(log)) {
      forall j | 0 <= j < |l| && l[j].RestoreOp? ensures SavedSince(l, j) {
        if op.SaveOp? {
          assert l[|log|].SaveOp?;
        } else {
          assert SavedSince(log, j);
          var m :| j < m < |log| && 0 <= m && log[m].SaveOp?;
          assert l[m].SaveOp?;
        }
      }
    }
  }

  lemma StepAlternates(c: Chip, e: Event, i: nat, log: seq<Op>)
    requires ClockOk(c) && Alternates(log) && (AllSaved(log) || c.active == i)
    ensures Alternates(log + Seen(c, e, i)) && (AllSaved(log + Seen(c, e, i)) || Step(c, e).active == i)
  {
    assert log + [] == log;
    match e
    case Clear(_) => LogGrows(log, ResetOp(c.clock));
    case Return(j) =>
      var sv, re := SaveOp(c.hw, c.clock), RestoreOp(c.clock);
      assert log + ([sv] + [re]) == log + [sv] + [re];
      assert log + ([sv] + []) == log + [sv] && log + ([] + [re]) == log + [re] && log + ([] + []) == log;
      if i == c.active {
        LogGrows(log, sv);
        if i == j { LogGrows(log + [sv], re); }
      } else if i == j {
        LogGrows(log, re);
      }
    case _ =>
  }

  /** On every run, from any state, two catch-ups of one timer never follow each other without a save
      in between: a timer that was restored and not saved since is the active one. */
  lemma {:induction false} CatchUpsAreSeparated(c: Chip, es: seq<Event>, i: nat)
    requires ClockOk(c)
    ensures Alternates(Log(c, es, i)) && (AllSaved(Log(c, es, i)) || Play(c, es).active == i)
  {
    if es != [] {
      var n := |es| - 1;
      CatchUpsAreSeparated(c, es[..n], i);
      StepAlternates(Play(c, es[..n]), es[n], i, Log(c, es[..n], i));
    }
  }

  // ---------------------------------------------------------------- the count that is computed and never used

  /** Equal but for the count stored in the active guest's timer. */
  ghost predicate AlikeButCount(c: Chip, d: Chip) {
    && c.hw == d.hw && c.active == d.active && c.clock == d.clock && |c.ts| == |d.ts|
    && (c.active < |c.ts| ==> c.ts[c.active].(cvr := 0) == d.ts[c.active].(cvr := 0))
    && forall i :: 0 <= i < |c.ts| && i != c.active ==> c.ts[i] == d.ts[i]
  }

  /** What a catch-up leaves as the count of the timer it starts is never looked at again: the hardware
      counter starts a full period, and the save before the next catch-up overwrites it. */
  lemma {:induction false} StoredCountIsDead(c: Chip, d: Chip, es: seq<Event>)
    requires ClockOk(c) && ClockOk(d) && AlikeButCount(c, d)
    ensures AlikeButCount(Play(c, es), Play(d, es))
  {
    if es != [] {
      var n := |es| - 1;
      StoredCountIsDead(c, d, es[..n]);
      var c1, d1 := Play(c, es[..n]), Play(d, es[..n]);
      if es[n].Return? { assert Depart(c1).ts == Depart(d1).ts; }
    }
  }

  /** A return to a guest without a timer leaves the hardware timer off and no tick pending; the timer of
      the guest that ran is saved all the same, and everybody else's stays. */
  lemma ReturnWithoutTimer(c: Chip, g: nat)
    requires ClockOk(c) && g >= |c.ts|
    ensures var d := Step(c, Return(g));
            && !d.hw.enable && !d.hw.tickint && !d.hw.pending && d.active == g && |d.ts| == |c.ts|
            && forall i :: 0 <= i < |c.ts| ==> d.ts[i] == if i == c.active then Save(c.ts[i], c.hw, c.clock) else c.ts[i]
  {}

  /** A guest that is returned to at once keeps its timer running as it left it, from a full period on, and
      is shown a tick exactly if one is owed and enabled. */
  lemma ReturnToItself(c: Chip, i: nat)
    requires ClockOk(c) && i < |c.ts| && c.active == i
    ensures var d, s := Step(c, Return(i)), Save(c.ts[i], c.hw, c.clock);
            && d.ts[i].owed == s.owed && d.ts[i].accrued == s.accrued && d.active == i
            && d.hw == Hw(c.hw.enable, c.hw.enable && c.hw.tickint, c.hw.rvr, 0,
                          s.owed > 0 && c.hw.enable && c.hw.tickint)
  {
    ReturnEffect(c, i, i);
  }

  // ---------------------------------------------------------------- away and back

  ghost predicate Untouched(es: seq<Event>, i: nat) {
    forall k :: 0 <= k < |es| ==> es[k] != Clear(i) && es[k] != Return(i)
  }

  lemma {:induction false} StaysAway(c: Chip, es: seq<Event>, i: nat)
    requires ClockOk(c) && i < |c.ts| && c.active != i && Untouched(es, i)
    ensures Play(c, es).ts[i] == c.ts[i] && Play(c, es).active != i && Play(c, es).clock >= c.clock
  {
    if es != [] {
      var n := |es| - 1;
      assert Untouched(es[..n], i);
      StaysAway(c, es[..n], i);
      assert es[n] != Clear(i) && es[n] != Return(i);
    }
  }

  /** The ticks the guest's own counter would have made in e cycles. */
  function Missed(hw: Hw, e: nat): nat {
    var p := hw.rvr % 0x100_0000 + 1;
    if !hw.enable then 0
    else Ticked(if hw.cvr == 0 || hw.cvr >= p then p else hw.cvr + 1, p, e).1
  }

  lemma OwedAcross(t: Systick, hw: Hw, v: nat, w: nat)
    requires v <= w
    ensures var s := Save(t, hw, v);
            var (r, pend) := Restore(s, w);
            && r.owed == Sat(s.owed + if v == 0 then 0 else Missed(hw, w - v))
            && r.enable == hw.enable && r.tickint == hw.tickint && r.rvr == hw.rvr
            && (pend <==> r.owed > 0 && hw.enable && hw.tickint)
  {
    var s := Save(t, hw, v);
    assert Period(s) == hw.rvr % 0x100_0000 + 1;
    assert s.owed <= MAX32;
  }

  lemma BackAgain(c: Chip, i: nat)
    requires ClockOk(c) && i < |c.ts| && c.active != i
    ensures var d := Step(c, Return(i));
            var (t, pend) := Restore(c.ts[i], c.clock);
            d.ts[i] == t && d.hw == Hw(t.enable, t.enable && t.tickint, t.rvr, 0, pend)
  {
    assert Depart(c).ts[i] == c.ts[i];
  }

  /** Guest g is returned to, then es happens. */
  function Away(c: Chip, g: nat, es: seq<Event>): (d: Chip)
    requires ClockOk(c)
    ensures ClockOk(d) && |d.ts| == |c.ts| && d.clock >= c.clock
  {
    Play(Step(c, Return(g)), es)
  }

  /** Guest i is left for guest g, and returned to after any run without it: it is owed the ticks its
      counter would have made meanwhile if and only if a secure tick had been counted before it left
      (clock 0 stands for "never"); the hardware shows a tick exactly if one is owed and enabled, and
      its counter starts a full period. */
  lemma AwayAndBack(c: Chip, g: nat, es: seq<Event>, i: nat)
    requires ClockOk(c) && i < |c.ts| && c.active == i && g != i && Untouched(es, i)
    ensures var d := Step(Away(c, g, es), Return(i));
            && d.ts[i].owed == Sat(Save(c.ts[i], c.hw, c.clock).owed
                                   + if c.clock == 0 then 0 else Missed(c.hw, Away(c, g, es).clock - c.clock))
            && d.ts[i].enable == c.hw.enable && d.ts[i].tickint == c.hw.tickint
            && d.hw == Hw(c.hw.enable, c.hw.enable && c.hw.tickint, c.hw.rvr, 0,
                          d.ts[i].owed > 0 && c.hw.enable && c.hw.tickint)
  {
    var c1 := Step(c, Return(g));
    assert c1.ts[i] == Save(c.ts[i], c.hw, c.clock);
    StaysAway(c1, es, i);
    BackAgain(Away(c, g, es), i);
    OwedAcross(c.ts[i], c.hw, c.clock, Away(c, g, es).clock);
  }

  /** The tick the hardware shows, if enabled. */
  function Shown(hw: Hw): nat {
    if hw.pending && hw.enable && hw.tickint then 1 else 0
  }

  lemma SaveFresh(hw: Hw, w: nat)
    ensures Save(Fresh(w), hw, w).owed == Shown(hw)
  {}

  /** A guest that faults is the active one still when its window is cleared: the return to the next
      guest writes the live hardware registers over the reset timer. So the restarted guest comes back
      with its timer on if and only if it was on when the guest faulted, and it is owed the tick that
      was pending then, if enabled, and those of its absence, restart delay included. */
  lemma ClearDoesNotStopTimer(c: Chip, g: nat, es: seq<Event>, i: nat)
    requires ClockOk(c) && i < |c.ts| && c.active == i && g != i && Untouched(es, i)
    ensures var c0 := Step(c, Clear(i));
            var d := Step(Away(c0, g, es), Return(i));
            && d.hw.enable == d.ts[i].enable == c.hw.enable
            && d.ts[i].owed == Sat(Shown(c.hw)
                                   + if c.clock == 0 then 0 else Missed(c.hw, Away(c0, g, es).clock - c.clock))
  {
    var c0 := Step(c, Clear(i));
    assert c0.ts[i] == Fresh(c.clock) && c0.hw == c.hw && c0.clock == c.clock;
    SaveFresh(c.hw, c.clock);
    AwayAndBack(c0, g, es, i);
  }

  /** From boot: guest 0 starts its timer in any way and faults before the first secure tick. However
      long it is away, it is owed nothing for it. */
  lemma FirstSliceIsNotCounted(n: nat, hw0: Hw, hw: Hw, cycles: nat)
    requires 1 < n <= MAX32
    ensures var c := Step(Step(Step(Boot(n, hw0), Return(0)), HwRuns(hw)), Clear(0));
            Step(Away(c, 1, [ClockRuns(cycles)]), Return(0)).ts[0].owed == Shown(hw)
  {
    var c := Step(Step(Boot(n, hw0), Return(0)), HwRuns(hw));
    ClearDoesNotStopTimer(c, 1, [ClockRuns(cycles)], 0);
  }

  /** A guest cleared while another one is active does come back with its timer off and owed nothing. */
  lemma ClearAwayStopsTimer(c: Chip, es: seq<Event>, i: nat)
    requires ClockOk(c) && i < |c.ts| && c.active != i && Untouched(es, i)
    ensures var c3 := Step(Play(Step(c, Clear(i)), es), Return(i));
            !c3.hw.enable && !c3.hw.pending && c3.ts[i].owed == 0
  {
    var c0 := Step(c, Clear(i));
    StaysAway(c0, es, i);
    assert Depart(Play(c0, es)).ts[i] == Fresh(c.clock);
  }

  // ---------------------------------------------------------------- the objects

  class Platform {
    var hw: Hw
    const timers: array<VirtualSystick>
    var active: nat
    var clock: nat

    ghost predicate Valid()
      reads this, timers
    {
      forall i, j :: 0 <= i < j < timers.Length ==> timers[i] != timers[j]
    }

    ghost function V(): (c: Chip)
      reads this, timers, timers[..]
      ensures |c.ts| == timers.Length
    {
      Chip(hw, seq(timers.Length, i requires 0 <= i < timers.Length reads this, timers, timers[..] => timers[i].V()),
           active, clock)
    }

    method SaveDeparting()
      requires Valid() && ClockOk(V())
      modifies this`hw, timers[..]
      ensures Valid() && V() == Depart(old(V()))
      ensures !hw.enable && !hw.tickint && !hw.pending
    {
      if active < timers.Length {
        timers[active].SaveDeparting(hw, clock);
      }
      hw := Stopped(hw);
    }

    method RestoreArriving(i: nat)
      requires Valid() && ClockOk(V().(active := i))
      modifies this`hw, this`active, timers[..]
      ensures Valid() && V() == Arrive(old(V()), i)
    {
      active := i;
      hw := hw.(pending := false);
      if i >= timers.Length { return; }
      var t := timers[i];
      assert old(V()).ts[i] == t.V();
      var pend := t.RestoreArriving(clock);
      hw := Hw(t.enable, t.enable && t.tickint, t.rvr, 0, pend);
    }

    /** wt_platform_prepare_guest_return */
    method PrepareGuestReturn(i: nat)
      requires Valid() && ClockOk(V())
      modifies this`hw, this`active, timers[..]
      ensures Valid() && V() == Step(old(V()), Return(i))
    {
      SaveDeparting();
      RestoreArriving(i);
    }

    /** The end of wt_platform_zero_guest_memory, for the whole window of guest i. */
    method ClearGuest(i: nat)
      requires Valid() && ClockOk(V())
      modifies timers[..]
      ensures Valid() && V() == Step(old(V()), Clear(i))
    {
      if i < timers.Length { timers[i].Reset(clock); }
    }
  }
}
