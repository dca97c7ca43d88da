/** The virtual SysTick of a guest that is off the CPU (wt_virtual_systick_* in
    src/port/stm32h563/platform_stm32h563.c). */
module SysTick {
  import opened Base

  const MAX32 := 0xFFFF_FFFF

  /** csr is kept as its ENABLE and TICKINT bits; `last` is the wall clock in cycles up to which time
      is accounted for, 0 meaning never. */
  datatype Systick = Systick(enable: bool, tickint: bool, rvr: u32, cvr: u32, last: nat,
                             owed: u32, accrued: u32, pending: bool)

  // ---------------------------------------------------------------- specification

  function Period(t: Systick): (p: nat)
    ensures 0 < p <= 0x100_0000
  {
    t.rvr % 0x100_0000 + 1
  }

  /** Cycles until the next tick, as the stored count says; 0 is read as a full period. */
  function Remaining(t: Systick): (r: nat)
    ensures 0 < r <= Period(t)
  {
    if t.cvr == 0 || t.cvr >= Period(t) then Period(t) else t.cvr + 1
  }

  function Sat(x: nat): u32 {
    if x > MAX32 then MAX32 else x
  }

  /** wt_virtual_systick_account_elapsed at wall clock w. */
  function CatchUp(t: Systick, w: nat): Systick
    requires w >= t.last
  {
    var e := w - t.last;
    if t.last == 0 || !t.enable || e == 0 then t.(last := w)
    else
      var (r, k) := Ticked(Remaining(t), Period(t), e);
      t.(last := w, cvr := r - 1, owed := Sat(t.owed + k), accrued := Sat(t.accrued + k))
  }

  /** A catch-up accounts up to now; it adds the same ticks to both counts, each capped at 2^32 - 1, and
      touches neither the settings nor the pending flag. */
  lemma CatchUpAccounts(t: Systick, w: nat)
    requires w >= t.last
    ensures var t', k := CatchUp(t, w), if t.last == 0 || !t.enable then 0 else Ticked(Remaining(t), Period(t), w - t.last).1;
            && t'.last == w && (t'.enable, t'.tickint, t'.rvr, t'.pending) == (t.enable, t.tickint, t.rvr, t.pending)
            && t'.owed == (if t.owed + k <= 0xFFFF_FFFF then t.owed + k else 0xFFFF_FFFF)
            && t'.accrued == if t.accrued + k <= 0xFFFF_FFFF then t.accrued + k else 0xFFFF_FFFF
  {}

  /** A reload-down counter one cycle after another: from r cycles before a tick, n cycles later it
      is r' cycles before one and has ticked k times. */
  function Ticked(r: nat, p: nat, n: nat): (rk: (nat, nat))
    requires 0 < r <= p
    ensures 0 < rk.0 <= p && rk.1 <= n
  {
    if n == 0 then (r, 0)
    else
      var (r1, k) := Ticked(r, p, n - 1);
      if r1 > 1 then (r1 - 1, k) else (p, k + 1)
  }

  lemma {:induction false} TickedAdds(r: nat, p: nat, a: nat, b: nat)
    requires 0 < r <= p
    ensures var (r1, k1) := Ticked(r, p, a);
            var (r2, k2) := Ticked(r1, p, b);
            Ticked(r, p, a + b) == (r2, k1 + k2)
  {
    if b > 0 { TickedAdds(r, p, a, b - 1); }
  }

  // ---------------------------------------------------------------- the closed form

  lemma DivStep(d: nat, p: nat)
    requires p > 0
    ensures d % p < p - 1 ==> (d + 1) / p == d / p && (d + 1) % p == d % p + 1
    ensures d % p == p - 1 ==> (d + 1) / p == d / p + 1 && (d + 1) % p == 0
  {
    var q := d / p;
    assert d == q * p + d % p;
    if d % p < p - 1 {
      DivUnique(d + 1, p, q, d % p + 1);
    } else {
      assert (q + 1) * p == q * p + p;
      DivUnique(d + 1, p, q + 1, 0);
    }
  }

  /** One division replaces stepping cycle by cycle, for every phase, period and number of cycles. */
  lemma {:induction false} ClosedForm(r: nat, p: nat, e: nat)
    requires 0 < r <= p
    ensures Ticked(r, p, e) == if e < r then (r - e, 0) else (p - (e - r) % p, 1 + (e - r) / p)
  {
    if e > 0 {
      ClosedForm(r, p, e - 1);
      if e > r { DivStep(e - 1 - r, p); }
      if e == r { DivUnique(0, p, 0, 0); }
    }
  }

  // ---------------------------------------------------------------- two calls instead of one

  /** From different phases the counter stays in different phases. */
  lemma {:induction false} PhasesStayApart(r: nat, s: nat, p: nat, n: nat)
    requires 0 < r <= p && 0 < s <= p && r != s
    ensures Ticked(r, p, n).0 != Ticked(s, p, n).0
  {
    if n > 0 { PhasesStayApart(r, s, p, n - 1); }
  }

  /** Where in its period the counter is after n cycles. */
  lemma {:induction false} PhaseAfter(r: nat, p: nat, n: nat)
    requires 0 < r <= p
    ensures Ticked(r, p, n).0 == if n % p < r then r - n % p else r + p - n % p
  {
    if n == 0 {
      DivUnique(0, p, 0, 0);
    } else {
      PhaseAfter(r, p, n - 1);
      DivStep(n - 1, p);
    }
  }

  /** A timer is caught up at v and again at w; when does one call at w give the same? An enabled one
      that something was accounted for: exactly if v is not one cycle before a tick (or the period is
      one cycle): the count stored then is 0, which is read back as a full period. The first call of an
      enabled timer without any account only starts it, so that w - v cycles are counted in two calls
      and none in one: those must leave count and ticks as they are. */
  predicate SplitsWell(t: Systick, v: nat, w: nat)
    requires t.last <= v <= w
  {
    var p, e := Period(t), w - v;
    if !t.enable || v == t.last || v == w then true
    else if t.last > 0 then
      (v - t.last) % p != Remaining(t) - 1 || p == 1
    else if t.owed == MAX32 && t.accrued == MAX32 then
      if t.cvr == 0 then e % p == p - 1 else t.cvr < p && e % p == 0
    else
      t.cvr == 0 && e == p - 1
  }

  lemma CatchUpTwice(t: Systick, v: nat, w: nat)
    requires t.last <= v <= w
    ensures CatchUp(CatchUp(t, v), w) == CatchUp(t, w) <==> SplitsWell(t, v, w)
  {
    if t.enable && t.last < v < w {
      if t.last > 0 { SplitAccounted(t, v, w); } else { SplitUnaccounted(t, v, w); }
    } else {
      assert v < w ==> CatchUp(t, v) == t.(last := v);
    }
  }

  lemma SplitAccounted(t: Systick, v: nat, w: nat)
    requires t.enable && 0 < t.last < v < w
    ensures CatchUp(CatchUp(t, v), w) == CatchUp(t, w) <==> SplitsWell(t, v, w)
  {
    var p, a, b := Period(t), v - t.last, w - v;
    TickedAdds(Remaining(t), p, a, b);
    PhaseAfter(Remaining(t), p, a);
    var t1 := CatchUp(t, v);
    var (r1, k1) := Ticked(Remaining(t), p, a);
    assert Period(t1) == p && t1.cvr == r1 - 1;
    if r1 == 1 && p > 1 {
      PhasesStayApart(1, p, p, b);
    } else {
      assert Remaining(t1) == r1;
    }
  }

  lemma SplitUnaccounted(t: Systick, v: nat, w: nat)
    requires t.enable && 0 == t.last < v < w
    ensures CatchUp(CatchUp(t, v), w) == CatchUp(t, w) <==> SplitsWell(t, v, w)
  {
    var p, r, e := Period(t), Remaining(t), w - v;
    ClosedForm(r, p, e);
    PhaseAfter(r, p, e);
    var (r1, k) := Ticked(r, p, e);
    var t2 := CatchUp(CatchUp(t, v), w);
    assert t2 == t.(last := w, cvr := r1 - 1, owed := Sat(t.owed + k), accrued := Sat(t.accrued + k));
    assert k == 0 <==> e < r;
    if e < p { DivUnique(e, p, 0, e); }
  }

  /** A timer of two cycles per tick that is accounted for at cycle 10 with a full period to go: at
      cycle 12 one tick is owed, but none if cycle 11 was accounted for in between. A timer without
      an account gains one the other way round. */
  lemma TwoCallsLoseATick()
    ensures var t := Systick(true, true, 1, 1, 10, 0, 0, false);
            CatchUp(t, 12).owed == 1 && CatchUp(CatchUp(t, 11), 12).owed == 0
    ensures var t := Systick(true, true, 1, 1, 0, 0, 0, false);
            CatchUp(t, 4).owed == 0 && CatchUp(CatchUp(t, 2), 4).owed == 1
  {
    var t := Systick(true, true, 1, 1, 10, 0, 0, false);
    assert Period(t) == 2 && Remaining(t) == 2;
    assert Ticked(2, 2, 1) == (1, 0) && Ticked(2, 2, 2) == (2, 1);
  }

  // ---------------------------------------------------------------- save and restore

  /** wt_virtual_systick_note_consumed: the guest took the tick that was pended for it. */
  function NoteConsumed(t: Systick, hwPending: bool): Systick {
    if t.pending && !hwPending then t.(owed := if t.owed > 0 then t.owed - 1 else 0, pending := false) else t
  }

  /** The hardware timer's registers as the guest left them. */
  datatype Hw = Hw(enable: bool, tickint: bool, rvr: u32, cvr: u32, pending: bool)

  function Inc32(x: u32): u32 {
    if x == MAX32 then 0 else x + 1
  }

  /** wt_virtual_systick_save_departing. */
  function Save(t: Systick, hw: Hw, w: nat): Systick {
    var t1 := NoteConsumed(t, hw.pending).(enable := hw.enable, tickint := hw.tickint, rvr := hw.rvr, cvr := hw.cvr, last := w);
    if !t1.pending && hw.pending && t1.enable && t1.tickint then
      t1.(owed := Inc32(t1.owed), pending := true, accrued := Inc32(t1.accrued))
    else t1
  }

  /** wt_virtual_systick_restore_arriving; also whether the tick interrupt is pended. */
  function Restore(t: Systick, w: nat): (Systick, bool)
    requires w >= t.last
  {
    var t1 := CatchUp(t, w);
    if t1.owed > 0 && t1.enable && t1.tickint then (t1.(pending := true), true) else (t1, false)
  }

  /** wt_virtual_systick_reset. */
  function Fresh(w: nat): Systick {
    Systick(false, false, 0, 0, w, 0, 0, false)
  }

  datatype Op = SaveOp(hw: Hw, w: nat) | RestoreOp(w: nat) | ResetOp(w: nat)

  /** Books over a run, kept from what the hardware shows: the timer; whether a tick is outstanding, that
      is, was left for the guest to take; whether the hardware was started showing it; how many ticks
      were delivered and how many lost; and all ticks there were. Unbounded, and since the last reset. */
  datatype Books = Books(t: Systick, out: bool, shown: bool, delivered: nat, lost: nat, total: nat)

  function NewBooks(t: Systick): Books {
    Books(t, false, false, 0, 0, 0)
  }

  predicate Possible(b: Books, op: Op) {
    op.RestoreOp? ==> op.w >= b.t.last
  }

  /** At a save an outstanding tick is gone if the hardware does not show it any more: delivered, if it
      was shown at all. A tick arises there if the hardware shows one, enabled, and none is outstanding.
      At a restore the counter's ticks of the absence arise, and one is shown if any is owed and enabled. */
  function Do(b: Books, op: Op): Books
    requires Possible(b, op)
  {
    match op
    case SaveOp(hw, w) =>
      var gone := b.out && !hw.pending;
      var arises := !b.out && hw.pending && hw.enable && hw.tickint;
      Books(Save(b.t, hw, w), (b.out && hw.pending) || arises, false,
            b.delivered + (if gone && b.shown then 1 else 0), b.lost + (if gone && !b.shown then 1 else 0),
            b.total + if arises then 1 else 0)
    case RestoreOp(w) =>
      var k := if b.t.last == 0 || !b.t.enable then 0 else Ticked(Remaining(b.t), Period(b.t), w - b.t.last).1;
      var shown := b.total + k > b.delivered + b.lost && b.t.enable && b.t.tickint;
      Books(Restore(b.t, w).0, b.out || shown, shown, b.delivered, b.lost, b.total + k)
    case ResetOp(w) => Books(Fresh(w), false, false, 0, 0, 0)
  }

  function Run(b: Books, ops: seq<Op>): Books {
    if ops == [] then b
    else
      var b1, op := Run(b, ops[..|ops| - 1]), ops[|ops| - 1];
      if Possible(b1, op) then Do(b1, op) else b1
  }

  predicate Balanced(b: Books) {
    && b.t.accrued == b.total
    && b.t.owed + b.delivered + b.lost == b.total
    && b.t.pending == b.out
    && (b.out ==> b.t.owed > 0)
  }

  lemma DoBalances(b: Books, op: Op)
    requires Balanced(b) && Possible(b, op) && Do(b, op).total <= MAX32
    ensures Balanced(Do(b, op))
  {}

  ghost predicate FewTicks(b: Books, ops: seq<Op>) {
    forall k :: 0 <= k <= |ops| ==> Run(b, ops[..k]).total <= MAX32
  }

  lemma FewTicksBefore(b: Books, ops: seq<Op>, n: nat)
    requires FewTicks(b, ops) && n <= |ops|
    ensures FewTicks(b, ops[..n]) && Run(b, ops[..n]).total <= MAX32
  {
    forall k | 0 <= k <= n ensures Run(b, ops[..n][..k]).total <= MAX32 {
      assert ops[..n][..k] == ops[..k];
    }
  }

  /** Conservation of ticks over every sequence of saves, restores and resets, as long as there are
      fewer than 2^32 ticks between two resets: each one was delivered once, or lost, or is still owed;
      the timer's pending flag says whether one is outstanding, and then one is owed. */
  lemma {:induction false} TicksAreConserved(b: Books, ops: seq<Op>)
    requires Balanced(b) && FewTicks(b, ops)
    ensures Balanced(Run(b, ops))
  {
    if ops != [] {
      var n := |ops| - 1;
      FewTicksBefore(b, ops, n);
      TicksAreConserved(b, ops[..n]);
      assert ops[..n + 1] == ops;
      var b1, op := Run(b, ops[..n]), ops[n];
      if Possible(b1, op) { DoBalances(b1, op); }
    }
  }

  /** When is a tick lost? A timer is started and saved again: exactly if a tick was outstanding before,
      the interrupt was off so that the hardware was not made to show it, and it does not show one at
      the save either. */
  lemma LosesExactly(b: Books, w: nat, hw: Hw, v: nat)
    requires b.t.last <= w && OutIsOwed(b)
    ensures var b2 := Do(Do(b, RestoreOp(w)), SaveOp(hw, v));
            b2.lost == b.lost + if b.out && !(b.t.enable && b.t.tickint) && !hw.pending then 1 else 0
  {}

  ghost predicate OutIsOwed(b: Books) {
    b.delivered + b.lost + (if b.out then 1 else 0) <= b.total
  }

  // ---------------------------------------------------------------- the object

  class VirtualSystick {
    var enable: bool
    var tickint: bool
    var rvr: u32
    var cvr: u32
    var lastAccounted: nat
    var owed: u32
    var accrued: u32
    var pending: bool

    function V(): Systick reads this {
      Systick(enable, tickint, rvr, cvr, lastAccounted, owed, accrued, pending)
    }

    /** wt_virtual_systick_reset. */
    method Reset(w: nat)
      modifies this
      ensures V() == Fresh(w)
    {
      enable, tickint, rvr, cvr := false, false, 0, 0;
      lastAccounted := w;
      owed, accrued, pending := 0, 0, false;
    }

    method NoteConsumedTick(hwPending: bool)
      modifies this`owed, this`pending
      ensures V() == NoteConsumed(old(V()), hwPending)
    {
      if pending && !hwPending {
        if owed > 0 { owed := owed - 1; }
        pending := false;
      }
    }

    method SaveDeparting(hw: Hw, w: nat)
      modifies this
      ensures V() == Save(old(V()), hw, w)
    {
      NoteConsumedTick(hw.pending);
      enable, tickint, rvr, cvr := hw.enable, hw.tickint, hw.rvr, hw.cvr;
      lastAccounted := w;
      if !pending && hw.pending && enable && tickint {
        owed := Inc32(owed);
        pending := true;
        accrued := Inc32(accrued);
      }
    }

    /** The arithmetic of the catch-up: one division, the same as stepping cycle by cycle. */
    static method Divide(remaining: nat, period: nat, elapsed: nat) returns (cvr: nat, ticks: nat)
      requires 0 < remaining <= period
      ensures (cvr + 1, ticks) == Ticked(remaining, period, elapsed)
    {
      ClosedForm(remaining, period, elapsed);
      if elapsed < remaining { return remaining - elapsed - 1, 0; }
      var past := elapsed - remaining;
      ticks := 1 + past / period;
      cvr := period - past % period - 1;
    }

    /** wt_virtual_systick_account_elapsed: the same as stepping the counter cycle by cycle. */
    method AccountElapsed(w: nat)
      requires w >= lastAccounted
      modifies this`lastAccounted, this`cvr, this`owed, this`accrued
      ensures V() == CatchUp(old(V()), w)
    {
      if lastAccounted == 0 {
        lastAccounted := w;
        return;
      }
      var elapsed := w - lastAccounted;
      lastAccounted := w;
      if !enable || elapsed == 0 { return; }

      var period := Period(V());
      var remaining := if cvr == 0 || cvr >= period then period else cvr + 1;
      var left, ticks := Divide(remaining, period, elapsed);
      cvr := left;
      if elapsed < remaining {
        ClosedForm(remaining, period, elapsed);
        return;
      }
      if ticks > MAX32 - owed { owed := MAX32; } else { owed := owed + ticks; }
      if ticks > MAX32 - accrued { accrued := MAX32; } else { accrued := accrued + ticks; }
    }

    method RestoreArriving(w: nat) returns (pend: bool)
      requires w >= lastAccounted
      modifies this
      ensures (V(), pend) == Restore(old(V()), w)
    {
      AccountElapsed(w);
      pend := owed > 0 && enable && tickint;
      if pend && !pending { pending := true; }
    }
  }
}
