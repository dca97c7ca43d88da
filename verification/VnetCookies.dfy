/** Cookies over whole runs: what a (slot, generation) pair still opens after its frame has left the
    queue, with the 16-bit generation wrapping round. */
module VnetCookies {
  import opened Base
  import opened VnetCodes
  import opened VnetMac
  import opened VnetSwitch
  import opened VnetInvariant
  import opened VnetFifo
  import opened VnetRuns

  /** No copy of q has cookie number x. */
  predicate Without(q: seq<Copy>, x: nat) {
    q == [] || (q[0].slot != x && Without(q[1..], x))
  }

  /** Numbers occur once in q, with the generation they were given out under last. */
  predicate Current(q: seq<Copy>, gens: seq<u16>) {
    q == [] ||
    (&& q[0].slot < |gens| && q[0].gen == gens[q[0].slot]
     && Without(q[1..], q[0].slot) && Current(q[1..], gens))
  }

  ghost predicate CookiesOk(n: Net) {
    forall j :: 0 <= j < |n.ports| ==> Current(n.ports[j].q, n.gens)
  }

  lemma {:induction false} WithoutMeans(q: seq<Copy>, x: nat)
    ensures Without(q, x) <==> forall k :: 0 <= k < |q| ==> q[k].slot != x
  {
    if q != [] {
      WithoutMeans(q[1..], x);
      assert forall k :: 0 < k < |q| ==> q[k] == q[1..][k - 1];
    }
  }

  lemma {:induction false} CurrentAt(q: seq<Copy>, gens: seq<u16>, k: nat)
    requires Current(q, gens) && k < |q|
    ensures q[k].slot < |gens| && q[k].gen == gens[q[k].slot]
  {
    if k > 0 { CurrentAt(q[1..], gens, k - 1); }
  }

  /** A number that is not queued may get another generation. */
  lemma {:induction false} CurrentElsewhere(q: seq<Copy>, gens: seq<u16>, x: nat, g: u16)
    requires Current(q, gens) && x < |gens| && Without(q, x)
    ensures Current(q, gens[x := g])
  {
    if q != [] { CurrentElsewhere(q[1..], gens, x, g); }
  }

  lemma {:induction false} WithoutAppend(q: seq<Copy>, c: Copy, x: nat)
    requires Without(q, x) && c.slot != x
    ensures Without(q + [c], x)
  {
    if q != [] {
      WithoutAppend(q[1..], c, x);
      assert (q + [c])[1..] == q[1..] + [c];
    }
  }

  lemma {:induction false} CurrentAppend(q: seq<Copy>, gens: seq<u16>, c: Copy)
    requires Current(q, gens) && Without(q, c.slot) && c.slot < |gens| && c.gen == gens[c.slot]
    ensures Current(q + [c], gens)
  {
    if q == [] {
      assert [c][1..] == [];
    } else {
      CurrentAppend(q[1..], gens, c);
      WithoutAppend(q[1..], c, q[0].slot);
      assert (q + [c])[1..] == q[1..] + [c];
    }
  }

  lemma {:induction false} WithoutYoung(q: seq<Copy>, x: nat, now: nat, timeout: u32)
    requires Without(q, x)
    ensures Without(Young(q, now, timeout), x)
  {
    if q != [] {
      WithoutYoung(q[1..], x, now, timeout);
      assert ([q[0]] + Young(q[1..], now, timeout))[1..] == Young(q[1..], now, timeout);
    }
  }

  lemma {:induction false} CurrentYoung(q: seq<Copy>, gens: seq<u16>, now: nat, timeout: u32)
    requires Current(q, gens)
    ensures Current(Young(q, now, timeout), gens)
  {
    if q != [] {
      CurrentYoung(q[1..], gens, now, timeout);
      WithoutYoung(q[1..], q[0].slot, now, timeout);
      assert ([q[0]] + Young(q[1..], now, timeout))[1..] == Young(q[1..], now, timeout);
    }
  }

  /** A copy that expiry takes leaves no other of its number behind. */
  lemma {:induction false} OldIsGone(q: seq<Copy>, gens: seq<u16>, now: nat, timeout: u32, c: Copy)
    requires Current(q, gens) && c in Old(q, now, timeout)
    ensures Without(Young(q, now, timeout), c.slot) && c.slot < |gens| && c.gen == gens[c.slot]
  {
    if now - q[0].birth >= timeout && c == q[0] {
      WithoutYoung(q[1..], c.slot, now, timeout);
    } else {
      OldIsGone(q[1..], gens, now, timeout, c);
      OldIsIn(q[1..], now, timeout, c);
      WithoutMeans(q[1..], q[0].slot);
      assert ([q[0]] + Young(q[1..], now, timeout))[1..] == Young(q[1..], now, timeout);
    }
  }

  lemma {:induction false} OldIsIn(q: seq<Copy>, now: nat, timeout: u32, c: Copy)
    requires c in Old(q, now, timeout)
    ensures c in q
  {
    if !(now - q[0].birth >= timeout && c == q[0]) {
      OldIsIn(q[1..], now, timeout, c);
      assert c in q[1..];
    }
  }

  // ---------------------------------------------------------------- steps and runs

  /** The cookie number an event gives out. */
  predicate Gives(n: Net, e: Event, x: nat) {
    e.op.TxOp? && Admits(n, e.op.vm, e.op.frame) && Unused(n) == x
  }

  lemma NewGens(n: Net, e: Event, x: nat)
    requires x < |n.gens|
    ensures var n' := NetStep(n, e).0;
            |n'.gens| == |n.gens| && n'.gens[x] == if Gives(n, e, x) then Inc16(n.gens[x]) else n.gens[x]
    ensures !e.op.TxOp? ==> NetStep(n, e).0.gens == n.gens
  {}

  lemma UnusedIsWithout(n: Net, j: nat)
    requires j < |n.ports| && Unused(n) < |n.gens|
    ensures Without(n.ports[j].q, Unused(n))
  {
    WithoutMeans(n.ports[j].q, Unused(n));
  }

  lemma TxCurrent(n: Net, e: Event, j: nat)
    requires CookiesOk(n) && j < |n.ports| && e.op.TxOp? && Admits(n, e.op.vm, e.op.frame)
    ensures j < |NetStep(n, e).0.ports| && Current(NetStep(n, e).0.ports[j].q, NetStep(n, e).0.gens)
  {
    var c := NextCopy(n, e.op.vm, e.op.frame, e.now);
    UnusedIsWithout(n, j);
    CurrentElsewhere(n.ports[j].q, n.gens, c.slot, c.gen);
    CurrentAppend(n.ports[j].q, n.gens[c.slot := c.gen], c);
  }

  lemma StepCurrent(n: Net, e: Event, j: nat)
    requires CookiesOk(n) && j < |n.ports|
    ensures j < |NetStep(n, e).0.ports| && Current(NetStep(n, e).0.ports[j].q, NetStep(n, e).0.gens)
  {
    if e.op.TxOp? && Admits(n, e.op.vm, e.op.frame) {
      TxCurrent(n, e, j);
    } else {
      NewQueue(n, e, j);
      ArrivesFacts(n, e, j);
      if e.op.ExpireOp? { CurrentYoung(n.ports[j].q, n.gens, e.now, e.op.timeout); }
      assert n.ports[j].q + [] == n.ports[j].q;
    }
  }

  lemma StepKeepsCookies(n: Net, e: Event)
    requires CookiesOk(n)
    ensures CookiesOk(NetStep(n, e).0)
  {
    NetSize(n, e);
    forall j | 0 <= j < |n.ports| ensures Current(NetStep(n, e).0.ports[j].q, NetStep(n, e).0.gens) {
      StepCurrent(n, e, j);
    }
  }

  /** On every run each queue holds a cookie number at most once, under the generation given out last. */
  lemma {:induction false} CookiesStayOk(n: Net, es: seq<Event>)
    requires CookiesOk(n)
    ensures CookiesOk(NetRun(n, es)) && |NetRun(n, es).ports| == |n.ports| && |NetRun(n, es).gens| == |n.gens|
  {
    if es != [] {
      var m := |es| - 1;
      CookiesStayOk(n, es[..m]);
      StepKeepsCookies(NetRun(n, es[..m]), es[m]);
      NetSize(NetRun(n, es[..m]), es[m]);
      GensSize(NetRun(n, es[..m]), es[m]);
    }
  }

  lemma GensSize(n: Net, e: Event)
    ensures |NetStep(n, e).0.gens| == |n.gens|
  {}

  /** How often number x was given out in a run. */
  ghost function Given(n: Net, es: seq<Event>, x: nat): nat {
    if es == [] then 0
    else
      var m := |es| - 1;
      Given(n, es[..m], x) + if Gives(NetRun(n, es[..m]), es[m], x) then 1 else 0
  }

  /** Generation g after k more frames in its slot. */
  function GenAfter(g: u16, k: nat): u16 {
    if k == 0 then g else Inc16(GenAfter(g, k - 1))
  }

  lemma IncIsMod(x: nat)
    ensures Inc16(x % TWO16) == (x + 1) % TWO16
  {}

  lemma {:induction false} GenAfterIsMod(g: u16, k: nat)
    ensures GenAfter(g, k) == (g + k) % TWO16
  {
    if k > 0 {
      GenAfterIsMod(g, k - 1);
      IncIsMod(g + k - 1);
    }
  }

  /** A generation comes back after every 2^16 frames in its slot, and then only. */
  lemma GenReturns(g: u16, k: nat)
    ensures GenAfter(g, k) == g <==> k % TWO16 == 0
  {
    GenAfterIsMod(g, k);
  }

  /** The generation of a slot counts the frames it held. */
  lemma {:induction false} GenIsGiven(n: Net, es: seq<Event>, x: nat)
    requires CookiesOk(n) && x < |n.gens|
    ensures x < |NetRun(n, es).gens| && NetRun(n, es).gens[x] == GenAfter(n.gens[x], Given(n, es, x))
  {
    if es != [] {
      var m := |es| - 1;
      GenIsGiven(n, es[..m], x);
      NewGens(NetRun(n, es[..m]), es[m], x);
    }
  }

  lemma StepKeepsAway(n: Net, e: Event, i: nat, x: nat)
    requires CookiesOk(n) && i < |n.ports| && Without(n.ports[i].q, x) && !Gives(n, e, x)
    ensures i < |NetStep(n, e).0.ports| && Without(NetStep(n, e).0.ports[i].q, x)
  {
    NewQueue(n, e, i);
    ArrivesFacts(n, e, i);
    if e.op.ExpireOp? && e.op.timeout > 0 {
      WithoutYoung(n.ports[i].q, x, e.now, e.op.timeout);
    } else if Arrives(n, e, i) != [] {
      WithoutAppend(n.ports[i].q, Arrives(n, e, i)[0], x);
      assert Arrives(n, e, i) == [Arrives(n, e, i)[0]];
    } else {
      assert n.ports[i].q + [] == n.ports[i].q;
    }
  }

  /** A number that is not queued at port i does not come back there before it is given out. */
  lemma {:induction false} StaysAway(n: Net, es: seq<Event>, i: nat, x: nat)
    requires CookiesOk(n) && i < |n.ports| && Without(n.ports[i].q, x) && Given(n, es, x) == 0
    ensures i < |NetRun(n, es).ports| && Without(NetRun(n, es).ports[i].q, x)
  {
    if es != [] {
      var m := |es| - 1;
      StaysAway(n, es[..m], i, x);
      CookiesStayOk(n, es[..m]);
      StepKeepsAway(NetRun(n, es[..m]), es[m], i, x);
    }
  }

  /** A copy that leaves a queue leaves no other of its number behind, and had its last generation. */
  lemma LeavesAlone(n: Net, e: Event, i: nat, c: Copy)
    requires CookiesOk(n) && i < |n.ports| && c in Leaves(n, e, i)
    ensures var n' := NetStep(n, e).0;
            && i < |n'.ports| && Without(n'.ports[i].q, c.slot)
            && n'.gens == n.gens && c.slot < |n.gens| && c.gen == n.gens[c.slot]
  {
    NewQueue(n, e, i);
    ArrivesFacts(n, e, i);
    if e.op.ExpireOp? {
      OldIsGone(n.ports[i].q, n.gens, e.now, e.op.timeout, c);
    } else {
      assert c == n.ports[i].q[0];
    }
  }

  // ---------------------------------------------------------------- a cookie after its frame has left

  /** VM i reads or releases the frame behind cookie (slot, gen). */
  ghost predicate Quotes(op: Op, i: nat, slot: u16, gen: u16) {
    (op.ReadOp? || op.ReleaseOp?) && op.vm == i && op.slot == slot && op.gen == gen
  }

  predicate Refused(r: Reply) {
    r in {Status(NotOpen), Status(Empty), Status(NotOwner)}
  }

  lemma AcceptsFront(n: Net, e: Event, i: nat, slot: u16, gen: u16)
    requires i < |n.ports| && Quotes(e.op, i, slot, gen)
    ensures !Refused(NetStep(n, e).1) <==>
            n.ports[i].open && n.ports[i].q != [] && n.ports[i].q[0].slot == slot && n.ports[i].q[0].gen == gen
    ensures Refused(NetStep(n, e).1) ==> NetStep(n, e).0 == n
  {}

  /** Copy c has left the queue of VM i, whether released or expired. Whatever happens then, VM i can
      use its cookie again if and only if a frame with the same number is at the front of its queue
      and the number was given out a positive multiple of 2^16 times since. */
  lemma StaleCookieExact(n: Net, e: Event, es: seq<Event>, i: nat, c: Copy, last: Event)
    requires CookiesOk(n) && i < |n.ports| && c in Leaves(n, e, i) && Quotes(last.op, i, c.slot, c.gen)
    ensures var n1 := NetStep(n, e).0;
            var n2 := NetRun(n1, es);
            && i < |n2.ports|
            && (!Refused(NetStep(n2, last).1) <==>
                && n2.ports[i].open && n2.ports[i].q != [] && n2.ports[i].q[0].slot == c.slot
                && WentRound(Given(n1, es, c.slot)))
            && (Refused(NetStep(n2, last).1) ==> NetStep(n2, last).0 == n2)
  {
    var n1 := NetStep(n, e).0;
    LeavesAlone(n, e, i, c);
    StepKeepsCookies(n, e);
    CookiesStayOk(n1, es);
    GenIsGiven(n1, es, c.slot);
    GenReturns(c.gen, Given(n1, es, c.slot));
    var n2 := NetRun(n1, es);
    AcceptsFront(n2, last, i, c.slot, c.gen);
    var q := n2.ports[i].q;
    if q != [] {
      CurrentAt(q, n2.gens, 0);
      if Given(n1, es, c.slot) == 0 { StaysAway(n1, es, i, c.slot); }
    }
  }

  /** A positive multiple of 2^16. */
  predicate WentRound(k: nat) {
    k > 0 && k % TWO16 == 0
  }

  // ---------------------------------------------------------------- the switch

  lemma {:induction false} NetRunSplits(n: Net, a: seq<Event>, b: seq<Event>)
    ensures NetRun(n, a + b) == NetRun(NetRun(n, a), b)
  {
    if b == [] {
      assert a + b == a;
    } else {
      var m := |b| - 1;
      NetRunSplits(n, a, b[..m]);
      assert (a + b)[..|a + b| - 1] == a + b[..m];
    }
  }

  lemma NetRunSnoc(n: Net, a: seq<Event>, e: Event)
    ensures NetRun(n, a + [e]) == NetStep(NetRun(n, a), e).0
  {
    assert (a + [e])[..|a|] == a;
  }

  /** On every good run of the switch from power-up: once a frame has left a VM's queue, the switch
      answers a read or release with its cookie by a refusal, unless the slot was given out a positive
      multiple of 2^16 times in between. */
  lemma StaleCookieRefused(n: u32, frames: u16, fdbCap: u16, ringCap: u16, flood: bool,
                           before: seq<Event>, e: Event, after: seq<Event>, i: nat, c: Copy, last: Event)
    requires n > 0 && ringCap > 0
    requires GoodRun(EmptyNet(n, frames, fdbCap, ringCap, flood), 0, before + [e] + after + [last])
    requires var n0 := NetRun(EmptyNet(n, frames, fdbCap, ringCap, flood), before);
             i < |n0.ports| && c in Leaves(n0, e, i)
    requires Quotes(last.op, i, c.slot, c.gen)
    requires !WentRound(Given(NetRun(EmptyNet(n, frames, fdbCap, ringCap, flood), before + [e]), after, c.slot))
    ensures Refused(Step(Run(Init(n, frames, fdbCap, ringCap, flood), NoBirths(frames), before + [e] + after).0, last).1)
  {
    var n0 := EmptyNet(n, frames, fdbCap, ringCap, flood);
    var es := before + [e] + after;
    assert (es + [last])[..|es|] == es;
    CookiesStayOk(n0, before);
    NetRunSnoc(n0, before, e);
    NetRunSplits(n0, before + [e], after);
    StaleCookieExact(NetRun(n0, before), e, after, i, c, last);
    SwitchIsFifos(n, frames, fdbCap, ringCap, flood, es);
    var (s, born) := Run(Init(n, frames, fdbCap, ringCap, flood), NoBirths(frames), es);
    StepRefines(s, born, EndTick(0, es), last);
  }
}
