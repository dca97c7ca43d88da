/** Whole runs of the switch: refinement of the FIFO form, what the FIFO form guarantees, and
    conservation of references. */
module VnetRuns {
  import opened Base
  import opened VnetCodes
  import opened VnetMac
  import opened VnetPool
  import opened VnetRing
  import opened VnetSwitch
  import opened VnetInvariant
  import opened VnetFifo

  // ---------------------------------------------------------------- runs

  ghost function Run(s: SwV, born: seq<nat>, es: seq<Event>): (SwV, seq<nat>) {
    if es == [] then (s, born)
    else
      var (s1, b1) := Run(s, born, es[..|es| - 1]);
      var e := es[|es| - 1];
      (Step(s1, e).0, BornAfter(s1, b1, e))
  }

  ghost function Replies(s: SwV, born: seq<nat>, es: seq<Event>): seq<Reply> {
    if es == [] then []
    else Replies(s, born, es[..|es| - 1]) + [Step(Run(s, born, es[..|es| - 1]).0, es[|es| - 1]).1]
  }

  ghost function NetRun(n: Net, es: seq<Event>): Net {
    if es == [] then n else NetStep(NetRun(n, es[..|es| - 1]), es[|es| - 1]).0
  }

  ghost function NetReplies(n: Net, es: seq<Event>): seq<Reply> {
    if es == [] then []
    else NetReplies(n, es[..|es| - 1]) + [NetStep(NetRun(n, es[..|es| - 1]), es[|es| - 1]).1]
  }

  function EndTick(now: nat, es: seq<Event>): nat {
    if es == [] then now else es[|es| - 1].now
  }

  /** No queued copy is 2^32 ticks old. */
  ghost predicate NetFresh(n: Net, now: nat) {
    forall j, k :: 0 <= j < |n.ports| && 0 <= k < |n.ports[j].q| ==> now < n.ports[j].q[k].birth + TWO32
  }

  /** Ticks do not decrease, and whenever frames are expired none is 2^32 ticks old. */
  ghost predicate GoodRun(n: Net, now: nat, es: seq<Event>) {
    es == [] ||
    (var before, e := es[..|es| - 1], es[|es| - 1];
     && GoodRun(n, now, before)
     && EndTick(now, before) <= e.now
     && (e.op.ExpireOp? && e.op.timeout > 0 ==> NetFresh(NetRun(n, before), e.now)))
  }

  /** A slot in use sits in some queue. */
  lemma LiveIsQueued(s: SwV, born: seq<nat>, now: nat, x: nat) returns (j: nat, k: nat)
    requires Inv(s, born, now) && Viewable(s, born) && x < |s.pool.slots| && s.pool.slots[x].refcnt != 0
    ensures j < |s.vnics| && k < |s.vnics[j].ring| && s.vnics[j].ring[k].slot == x
    ensures View(s, born).ports[j].q[k].birth == born[x]
  {
    RefCountZero(s.vnics, x);
    j :| 0 <= j < |s.vnics| && Has(s.vnics[j].ring, x);
    k :| 0 <= k < |s.vnics[j].ring| && s.vnics[j].ring[k].slot == x;
  }

  lemma FreshMeansNoneAncient(s: SwV, born: seq<nat>, now: nat, now': nat)
    requires Inv(s, born, now) && Viewable(s, born) && NetFresh(View(s, born), now')
    ensures NoneAncient(s, born, now')
  {
    forall x | 0 <= x < |born| && s.pool.slots[x].refcnt != 0 ensures now' < born[x] + TWO32 {
      var j, k := LiveIsQueued(s, born, now, x);
      assert View(s, born).ports[j].q[k].birth == born[x];
    }
  }

  lemma NetSize(n: Net, e: Event)
    ensures |NetStep(n, e).0.ports| == |n.ports|
  {}

  /** The shared pool, rings and counts behave like one FIFO of private copies per VM: in every
      good run the replies and the queues are those of the FIFO form, and the invariant holds. */
  lemma {:induction false} RunRefines(s: SwV, born: seq<nat>, now: nat, es: seq<Event>)
    requires Inv(s, born, now) && Viewable(s, born)
    requires GoodRun(View(s, born), now, es)
    ensures var (s', born') := Run(s, born, es);
            && Inv(s', born', EndTick(now, es)) && |s'.vnics| == |s.vnics|
            && Viewable(s', born')
            && View(s', born') == NetRun(View(s, born), es)
            && Replies(s, born, es) == NetReplies(View(s, born), es)
  {
    if es != [] {
      var before, e := es[..|es| - 1], es[|es| - 1];
      RunRefines(s, born, now, before);
      var (s1, b1) := Run(s, born, before);
      if e.op.ExpireOp? && e.op.timeout > 0 {
        FreshMeansNoneAncient(s1, b1, EndTick(now, before), e.now);
      }
      StepRefines(s1, b1, EndTick(now, before), e);
      NetSize(View(s1, b1), e);
    }
  }

  /** The same from power-up. */
  lemma SwitchIsFifos(n: u32, frames: u16, fdbCap: u16, ringCap: u16, flood: bool, es: seq<Event>)
    requires n > 0 && ringCap > 0
    requires var s, born := Init(n, frames, fdbCap, ringCap, flood), NoBirths(frames);
             GoodRun(EmptyNet(n, frames, fdbCap, ringCap, flood), 0, es)
    ensures var s, born := Init(n, frames, fdbCap, ringCap, flood), NoBirths(frames);
            var (s', born') := Run(s, born, es);
            && Inv(s', born', EndTick(0, es)) && Viewable(s', born')
            && View(s', born') == NetRun(EmptyNet(n, frames, fdbCap, ringCap, flood), es)
            && Replies(s, born, es) == NetReplies(EmptyNet(n, frames, fdbCap, ringCap, flood), es)
  {
    var s, born := Init(n, frames, fdbCap, ringCap, flood), NoBirths(frames);
    InitInv(n, frames, fdbCap, ringCap, flood);
    InvIsViewable(s, born, 0);
    assert View(s, born) == EmptyNet(n, frames, fdbCap, ringCap, flood) by {
      assert View(s, born).ports == EmptyNet(n, frames, fdbCap, ringCap, flood).ports;
      assert View(s, born).gens == EmptyNet(n, frames, fdbCap, ringCap, flood).gens;
    }
    RunRefines(s, born, 0, es);
  }

  function EmptyNet(n: nat, frames: nat, table: nat, cap: nat, flood: bool): Net {
    Net(seq(n, i => Port(false, None, [])), flood, cap, seq(frames, i => 0), table)
  }

  // ---------------------------------------------------------------- what the FIFO form guarantees

  /** The slot of the next frame is in no ring. */
  lemma CookieIsFresh(s: SwV, born: seq<nat>, now: nat, j: nat, k: nat)
    requires Inv(s, born, now) && Viewable(s, born) && j < |s.vnics| && k < |s.vnics[j].ring|
    requires FirstFree(s.pool.slots) < |s.pool.slots|
    ensures s.vnics[j].ring[k].slot != FirstFree(s.pool.slots)
    ensures View(s, born).ports[j].q[k].slot != Unused(View(s, born))
  {
    FreeSlotUnheld(s, born, now, FirstFree(s.pool.slots));
    UnusedIsFirstFree(s, born, now, 0);
  }

  /** Copies are queued in the order of their births, none from the future. */
  ghost predicate InOrder(q: seq<Copy>, now: nat) {
    && (forall k, l :: 0 <= k < l < |q| ==> q[k].birth <= q[l].birth)
    && (forall k :: 0 <= k < |q| ==> q[k].birth <= now)
  }

  /** The copies that reached the timeout. */
  function Old(q: seq<Copy>, now: nat, timeout: u32): seq<Copy> {
    if q == [] then []
    else if now - q[0].birth >= timeout then [q[0]] + Old(q[1..], now, timeout)
    else Old(q[1..], now, timeout)
  }

  lemma InOrderTail(q: seq<Copy>, now: nat)
    requires InOrder(q, now) && q != []
    ensures InOrder(q[1..], now)
    ensures forall c :: c in q[1..] ==> q[0].birth <= c.birth
  {}

  lemma {:induction false} OldThenYoung(q: seq<Copy>, now: nat, timeout: u32)
    requires InOrder(q, now)
    ensures q == Old(q, now, timeout) + Young(q, now, timeout)
    ensures q != [] && now - q[0].birth < timeout ==> Old(q, now, timeout) == []
  {
    if q != [] {
      InOrderTail(q, now);
      OldThenYoung(q[1..], now, timeout);
      assert q == [q[0]] + q[1..];
      if now - q[0].birth < timeout { assert Old(q[1..], now, timeout) == []; }
    }
  }

  /** What a step adds to queue i. */
  ghost function Arrives(n: Net, e: Event, i: nat): seq<Copy>
    requires i < |n.ports|
  {
    if e.op.TxOp? && Admits(n, e.op.vm, e.op.frame) && Receives(n, e.op.vm, MacAt(e.op.frame, 0), i)
    then [NextCopy(n, e.op.vm, e.op.frame, e.now)] else []
  }

  /** What a step removes from queue i. */
  ghost function Leaves(n: Net, e: Event, i: nat): seq<Copy>
    requires i < |n.ports|
  {
    var q := n.ports[i].q;
    if e.op.ReleaseOp? && e.op.vm == i && n.ports[i].open && q != [] &&
       q[0].slot == e.op.slot && q[0].gen == e.op.gen then [q[0]]
    else if e.op.ExpireOp? && e.op.timeout > 0 then Old(q, e.now, e.op.timeout)
    else []
  }

  lemma {:induction false} YoungFromQueue(q: seq<Copy>, now: nat, timeout: u32)
    ensures forall c :: c in Young(q, now, timeout) ==> c in q
  {
    if q != [] {
      YoungFromQueue(q[1..], now, timeout);
      assert forall c :: c in q[1..] ==> c in q;
    }
  }

  lemma {:induction false} YoungInOrder(q: seq<Copy>, now: nat, timeout: u32)
    requires InOrder(q, now)
    ensures InOrder(Young(q, now, timeout), now)
  {
    if q != [] {
      InOrderTail(q, now);
      YoungInOrder(q[1..], now, timeout);
      YoungFromQueue(q[1..], now, timeout);
      if now - q[0].birth < timeout { Prepend(q[0], Young(q[1..], now, timeout), now); }
    }
  }

  lemma Prepend(c: Copy, q: seq<Copy>, now: nat)
    requires InOrder(q, now) && c.birth <= now && forall d :: d in q ==> c.birth <= d.birth
    ensures InOrder([c] + q, now)
  {
    var r := [c] + q;
    forall k, l | 0 <= k < l < |r| ensures r[k].birth <= r[l].birth {
      assert r[l] in q;
    }
  }

  lemma NewQueue(n: Net, e: Event, i: nat)
    requires i < |n.ports|
    ensures var n', q := NetStep(n, e).0, n.ports[i].q;
            && |n'.ports| == |n.ports|
            && n'.ports[i].q == if e.op.ExpireOp? && e.op.timeout > 0 then Young(q, e.now, e.op.timeout)
                                else if Leaves(n, e, i) != [] then q[1..]
                                else q + Arrives(n, e, i)
  {}

  lemma ArrivesFacts(n: Net, e: Event, i: nat)
    requires i < |n.ports|
    ensures |Arrives(n, e, i)| <= 1 && forall c :: c in Arrives(n, e, i) ==> c.birth == e.now
    ensures !e.op.TxOp? ==> Arrives(n, e, i) == []
    ensures Leaves(n, e, i) != [] ==> !e.op.TxOp?
  {}

  /** One step on one queue: what was there plus what arrives is what leaves plus what stays. */
  lemma QueueStep(n: Net, now: nat, e: Event, i: nat)
    requires i < |n.ports| && InOrder(n.ports[i].q, now) && now <= e.now
    ensures var n' := NetStep(n, e).0;
            && |n'.ports| == |n.ports|
            && InOrder(n'.ports[i].q, e.now)
            && n.ports[i].q + Arrives(n, e, i) == Leaves(n, e, i) + n'.ports[i].q
  {
    NewQueue(n, e, i);
    ArrivesFacts(n, e, i);
    var q, timeout := n.ports[i].q, if e.op.ExpireOp? then e.op.timeout else 0;
    if timeout > 0 {
      ExpiredBalance(q, now, e.now, timeout);
    } else if Leaves(n, e, i) != [] {
      ReleasedBalance(q, now, e.now);
    } else {
      AppendNow(q, Arrives(n, e, i), now, e.now);
    }
  }

  lemma ExpiredBalance(q: seq<Copy>, now: nat, now': nat, timeout: u32)
    requires InOrder(q, now) && now <= now'
    ensures InOrder(Young(q, now', timeout), now') && q + [] == Old(q, now', timeout) + Young(q, now', timeout)
  {
    OldThenYoung(q, now', timeout);
    YoungInOrder(q, now', timeout);
  }

  lemma ReleasedBalance(q: seq<Copy>, now: nat, now': nat)
    requires InOrder(q, now) && now <= now' && q != []
    ensures InOrder(q[1..], now') && q + [] == [q[0]] + q[1..]
  {
    InOrderTail(q, now);
  }

  lemma AppendNow(q: seq<Copy>, a: seq<Copy>, now: nat, now': nat)
    requires InOrder(q, now) && now <= now' && |a| <= 1 && forall c :: c in a ==> c.birth == now'
    ensures InOrder(q + a, now') && q + a == [] + (q + a)
  {
    if a != [] { assert a[0] in a; }
  }

  lemma Regroup<T>(q0: seq<T>, a0: seq<T>, l0: seq<T>, q1: seq<T>, a1: seq<T>, l1: seq<T>, q2: seq<T>)
    requires q0 + a0 == l0 + q1 && q1 + a1 == l1 + q2
    ensures q0 + (a0 + a1) == (l0 + l1) + q2
  {
    calc {
      q0 + (a0 + a1);
      (q0 + a0) + a1;
      l0 + (q1 + a1);
      (l0 + l1) + q2;
    }
  }

  ghost function AllArrived(n: Net, es: seq<Event>, i: nat): seq<Copy>
  {
    if es == [] then []
    else
      var n1 := NetRun(n, es[..|es| - 1]);
      AllArrived(n, es[..|es| - 1], i) +
      if i < |n1.ports| then Arrives(n1, es[|es| - 1], i) else []
  }

  ghost function AllLeft(n: Net, es: seq<Event>, i: nat): seq<Copy>
  {
    if es == [] then []
    else
      var n1 := NetRun(n, es[..|es| - 1]);
      AllLeft(n, es[..|es| - 1], i) +
      if i < |n1.ports| then Leaves(n1, es[|es| - 1], i) else []
  }

  /** Conservation and order over a whole run: the frames that ever entered queue i are, in the
      same order and unaltered, those that left it followed by those still in it. */
  lemma {:induction false} FifoOrder(n: Net, now: nat, es: seq<Event>, i: nat)
    requires GoodRun(n, now, es)
    requires i < |n.ports| && InOrder(n.ports[i].q, now)
    ensures var n' := NetRun(n, es);
            && |n'.ports| == |n.ports|
            && InOrder(n'.ports[i].q, EndTick(now, es))
            && n.ports[i].q + AllArrived(n, es, i) == AllLeft(n, es, i) + n'.ports[i].q
  {
    if es != [] {
      var m := |es| - 1;
      FifoOrder(n, now, es[..m], i);
      var n1 := NetRun(n, es[..m]);
      QueueStep(n1, EndTick(now, es[..m]), es[m], i);
      Regroup(n.ports[i].q, AllArrived(n, es[..m], i), AllLeft(n, es[..m], i), n1.ports[i].q,
              Arrives(n1, es[m], i), Leaves(n1, es[m], i), NetRun(n, es).ports[i].q);
    }
  }

  /** In the run from n0, event k is the transmission of copy c: admitted in the state it met, and
      received by VM i. */
  ghost predicate SentAt(n0: Net, es: seq<Event>, k: nat, i: nat, c: Copy)
    requires k < |es|
  {
    var n := NetRun(n0, es[..k]);
    && i < |n.ports| && es[k] == Event(c.birth, TxOp(c.src, c.bytes))
    && Admits(n, c.src, c.bytes) && Receives(n, c.src, MacAt(c.bytes, 0), i)
    && c == NextCopy(n, c.src, c.bytes, c.birth)
  }

  ghost predicate Sent(n0: Net, es: seq<Event>, i: nat, c: Copy) {
    exists k :: 0 <= k < |es| && SentAt(n0, es, k, i, c)
  }

  lemma SentStays(n0: Net, es: seq<Event>, m: nat, i: nat, c: Copy)
    requires m <= |es| && Sent(n0, es[..m], i, c)
    ensures Sent(n0, es, i, c)
  {
    var k :| 0 <= k < m && SentAt(n0, es[..m], k, i, c);
    assert es[..m][..k] == es[..k];
    assert SentAt(n0, es, k, i, c);
  }

  /** Copy c at VM i was sent by another VM, from that VM's own address, to an address VM i may
      hear, with exactly these bytes at its birth tick, by a transmission of the run that was accepted. */
  ghost predicate Genuine(n0: Net, es: seq<Event>, i: nat, c: Copy) {
    var n := NetRun(n0, es);
    && i < |n.ports| && c.src < |n.ports| && c.src != i
    && FRAME_MIN <= |c.bytes|
    && OwnedAs(n.ports[c.src], c.bytes[6..12])
    && c.bytes[..6] != [0, 0, 0, 0, 0, 0]
    && (c.bytes[0] % 2 == 1 || OwnedAs(n.ports[i], c.bytes[..6]) || n.flood)
    && Sent(n0, es, i, c)
  }

  ghost predicate AllGenuine(n0: Net, es: seq<Event>) {
    var n := NetRun(n0, es);
    forall i, k :: 0 <= i < |n.ports| && 0 <= k < |n.ports[i].q| ==> Genuine(n0, es, i, n.ports[i].q[k])
  }

  /** Addresses are never changed or withdrawn, and nothing else is left behind. */
  lemma StepPorts(n: Net, e: Event, i: nat)
    requires i < |n.ports|
    ensures var n' := NetStep(n, e).0;
            && |n'.ports| == |n.ports| && n'.flood == n.flood
            && (n.ports[i].mac.Some? ==> n'.ports[i].mac == n.ports[i].mac)
            && forall c :: c in n'.ports[i].q ==> c in n.ports[i].q || c in Arrives(n, e, i)
  {
    YoungFromQueue(n.ports[i].q, e.now, if e.op.ExpireOp? then e.op.timeout else 0);
  }

  /** No forged source, no frame of one's own, no unicast frame for somebody else (unless flooding
      is on), no altered bytes: in every run, for every queued copy. */
  lemma {:induction false} NoForgedFrames(n: Net, es: seq<Event>)
    requires forall i :: 0 <= i < |n.ports| ==> n.ports[i].q == []
    ensures AllGenuine(n, es)
  {
    if es != [] {
      var m := |es| - 1;
      NoForgedFrames(n, es[..m]);
      var n1, e := NetRun(n, es[..m]), es[m];
      var n' := NetStep(n1, e).0;
      StepPortsAll(n1, e);
      forall i, k | 0 <= i < |n'.ports| && 0 <= k < |n'.ports[i].q|
        ensures Genuine(n, es, i, n'.ports[i].q[k])
      {
        var c := n'.ports[i].q[k];
        assert c in n'.ports[i].q;
        if c in n1.ports[i].q {
          var l :| 0 <= l < |n1.ports[i].q| && n1.ports[i].q[l] == c;
          assert Genuine(n, es[..m], i, c);
          SentStays(n, es, m, i, c);
        } else {
          assert c in Arrives(n1, e, i);
          assert SentAt(n, es, m, i, c);
          ArrivesByBytes(n1, e, i, c);
        }
      }
    }
  }

  lemma SpelledOut(p: Port, frame: seq<u8>, off: nat)
    requires off + 6 <= |frame|
    ensures OwnedAs(p, frame[off..off + 6]) <==> p.mac == Some(MacAt(frame, off))
    ensures frame[off..off + 6] == [0, 0, 0, 0, 0, 0] <==> MacAt(frame, off) == ZERO_MAC
    ensures IsMulticast(MacAt(frame, off)) <==> frame[off] % 2 == 1
  {
    ReadsInOrder(frame, off, if p.mac.Some? then p.mac.value else ZERO_MAC);
    ReadsInOrder(frame, off, ZERO_MAC);
  }

  /** What a frame that arrives says in its first twelve bytes. */
  lemma ArrivesByBytes(n: Net, e: Event, i: nat, c: Copy)
    requires i < |n.ports| && c in Arrives(n, e, i)
    ensures c.src < |n.ports| && |c.bytes| >= FRAME_MIN && OwnedAs(n.ports[c.src], c.bytes[6..12])
    ensures c.bytes[..6] != [0, 0, 0, 0, 0, 0]
    ensures c.bytes[0] % 2 == 1 || OwnedAs(n.ports[i], c.bytes[..6]) || n.flood
  {
    SpelledOut(n.ports[c.src], c.bytes, 6);
    SpelledOut(n.ports[i], c.bytes, 0);
    assert c.bytes[0..6] == c.bytes[..6];
  }

  lemma StepPortsAll(n: Net, e: Event)
    ensures var n' := NetStep(n, e).0;
            && |n'.ports| == |n.ports| && n'.flood == n.flood
            && forall i :: 0 <= i < |n.ports| ==>
                 && (n.ports[i].mac.Some? ==> n'.ports[i].mac == n.ports[i].mac)
                 && forall c :: c in n'.ports[i].q ==> c in n.ports[i].q || c in Arrives(n, e, i)
  {
    forall i | 0 <= i < |n.ports|
      ensures var n' := NetStep(n, e).0;
              && |n'.ports| == |n.ports|
              && (n.ports[i].mac.Some? ==> n'.ports[i].mac == n.ports[i].mac)
              && forall c :: c in n'.ports[i].q ==> c in n.ports[i].q || c in Arrives(n, e, i)
    {
      StepPorts(n, e, i);
    }
  }

  // ---------------------------------------------------------------- who receives

  lemma {:induction false} SenderNotWanted(n: Net, src: u32, dst: Mac, j: nat)
    requires src < j <= |n.ports|
    ensures Wanted(n, src, dst, j) < j
  {
    if src < j - 1 { SenderNotWanted(n, src, dst, j - 1); }
  }

  lemma {:induction false} WantedGrows(n: Net, src: u32, dst: Mac, i: nat, j: nat)
    requires i <= j <= |n.ports|
    ensures Wanted(n, src, dst, i) <= Wanted(n, src, dst, j)
    decreases j
  {
    if i < j { WantedGrows(n, src, dst, i, j - 1); }
  }

  /** With at most 65535 VMs everybody who should receive a frame does. */
  lemma SmallSwitchServesEverybody(n: Net, src: u32, dst: Mac, j: nat)
    requires src < |n.ports| <= 0xFFFF && j < |n.ports|
    ensures Receives(n, src, dst, j) <==> Wants(n, src, dst, j)
  {
    if Wants(n, src, dst, j) {
      SenderNotWanted(n, src, dst, |n.ports|);
      WantedGrows(n, src, dst, j + 1, |n.ports|);
    }
  }


  /** No two VMs own the same address. */
  lemma OwnersDiffer(s: SwV, born: seq<nat>, now: nat, i: nat, j: nat)
    requires Inv(s, born, now) && i < |s.vnics| && j < |s.vnics|
    requires s.vnics[i].macSet && s.vnics[j].macSet && s.vnics[i].mac == s.vnics[j].mac
    ensures i == j
  {
    FindsPinned(s.vnics, s.fdb, i);
    FindsPinned(s.vnics, s.fdb, j);
  }

  /** Transmitting never changes the address table. */
  lemma TxKeepsTable(s: SwV, born: seq<nat>, now: nat, src: u32, frame: seq<u8>, tick: u32)
    requires Inv(s, born, now)
    ensures Tx(s, src, frame, tick).0.fdb == s.fdb
  {
    if TxRefusal(s, src, frame).None? { LearnIsNoop(s, born, now, src); }
  }

  /** Privacy of unicast: without flooding, a frame with an even first byte changes the queue of at most
      one VM, the one whose address is the first six bytes, and it is not the sender. */
  lemma UnicastStaysPrivate(s: SwV, born: seq<nat>, now: nat, e: Event, j: nat)
    requires Inv(s, born, now) && now <= e.now && Timely(s, born, e)
    requires e.op.TxOp? && !s.flood && |e.op.frame| >= FRAME_MIN && e.op.frame[0] % 2 == 0
    requires j < |s.vnics| && Viewable(s, born) && Viewable(Step(s, e).0, BornAfter(s, born, e))
    ensures |Step(s, e).0.vnics| == |s.vnics|
    ensures var ps, ps' := View(s, born).ports, View(Step(s, e).0, BornAfter(s, born, e)).ports;
            ps'[j] != ps[j] ==>
              && OwnedAs(ps[j], e.op.frame[..6]) && j != e.op.vm
              && |ps'[j].q| == |ps[j].q| + 1 && ps'[j].q[..|ps[j].q|] == ps[j].q && ps'[j].q[|ps[j].q|].bytes == e.op.frame
              && forall i :: 0 <= i < |ps| && i != j ==> ps'[i] == ps[i]
  {
    StepRefines(s, born, now, e);
    OnlyTheOwnerChanges(View(s, born), e, j);
    if View(Step(s, e).0, BornAfter(s, born, e)).ports[j] != View(s, born).ports[j] {
      forall i | 0 <= i < |s.vnics| && i != j
        ensures View(Step(s, e).0, BornAfter(s, born, e)).ports[i] == View(s, born).ports[i]
      {
        OnlyTheOwnerChanges(View(s, born), e, i);
        if s.vnics[i].macSet && s.vnics[i].mac == s.vnics[j].mac { OwnersDiffer(s, born, now, i, j); }
      }
    }
  }

  lemma OnlyTheOwnerChanges(n: Net, e: Event, j: nat)
    requires e.op.TxOp? && !n.flood && |e.op.frame| >= FRAME_MIN && e.op.frame[0] % 2 == 0 && j < |n.ports|
    ensures var n' := NetStep(n, e).0;
            && |n'.ports| == |n.ports|
            && (n'.ports[j] != n.ports[j] ==>
                  && n.ports[j].mac.Some? && OwnedAs(n.ports[j], e.op.frame[..6]) && j != e.op.vm
                  && var q, q' := n.ports[j].q, n'.ports[j].q;
                     |q'| == |q| + 1 && q'[..|q|] == q && q'[|q|].bytes == e.op.frame)
  {
    assert e.op.frame[0..6] == e.op.frame[..6];
    SpelledOut(n.ports[j], e.op.frame, 0);
  }

  // ---------------------------------------------------------------- conservation

  ghost function SumRefs(slots: seq<Frame>): nat {
    if slots == [] then 0 else SumRefs(slots[..|slots| - 1]) + slots[|slots| - 1].refcnt
  }

  ghost function SumQueued(vs: seq<VnicV>): nat {
    if vs == [] then 0 else SumQueued(vs[..|vs| - 1]) + |vs[|vs| - 1].ring|
  }

  /** Total of RefCount over the slots below n. */
  ghost function SumCounts(vs: seq<VnicV>, n: nat): nat {
    if n == 0 then 0 else SumCounts(vs, n - 1) + RefCount(vs, n - 1)
  }

  /** How many slots below n one ring mentions. */
  ghost function Mentions(q: seq<Desc>, n: nat): nat {
    if n == 0 then 0 else Mentions(q, n - 1) + if Has(q, n - 1) then 1 else 0
  }

  lemma {:induction false} SumCountsSplit(vs: seq<VnicV>, n: nat)
    requires vs != []
    ensures SumCounts(vs, n) == SumCounts(vs[..|vs| - 1], n) + Mentions(vs[|vs| - 1].ring, n)
  {
    if n > 0 { SumCountsSplit(vs, n - 1); }
  }

  lemma {:induction false} SumCountsEmpty(n: nat)
    ensures SumCounts([], n) == 0
  {
    if n > 0 { SumCountsEmpty(n - 1); }
  }

  ghost function MentionedBelow(q: seq<Desc>, n: nat): set<nat> {
    set x: nat | x < n && Has(q, x)
  }

  lemma {:induction false} MentionsIsSize(q: seq<Desc>, n: nat)
    ensures Mentions(q, n) == |MentionedBelow(q, n)|
  {
    if n > 0 {
      MentionsIsSize(q, n - 1);
      assert MentionedBelow(q, n) == MentionedBelow(q, n - 1) + if Has(q, n - 1) then {n - 1} else {};
    } else {
      assert MentionedBelow(q, 0) == {};
    }
  }

  lemma MentionsIsLength(q: seq<Desc>, n: nat)
    requires forall k :: 0 <= k < |q| ==> q[k].slot < n
    requires forall k, l :: 0 <= k < l < |q| ==> q[k].slot != q[l].slot
    ensures Mentions(q, n) == |q|
  {
    MentionsIsSize(q, n);
    var slots := seq(|q|, k requires 0 <= k < |q| => q[k].slot as nat);
    DistinctSize(slots);
    forall x | x in MentionedBelow(q, n) ensures x in Elems(slots) {
      var k :| 0 <= k < |q| && q[k].slot == x;
      assert slots[k] == x;
    }
    forall x | x in Elems(slots) ensures x in MentionedBelow(q, n) {
      var k :| 0 <= k < |slots| && slots[k] == x;
    }
    assert MentionedBelow(q, n) == Elems(slots);
  }

  lemma {:induction false} CountsAreLengths(vs: seq<VnicV>, p: PoolV, born: seq<nat>)
    requires forall j :: 0 <= j < |vs| ==> RingOk(p, born, vs[j].ring)
    ensures SumCounts(vs, |p.slots|) == SumQueued(vs)
  {
    if vs == [] {
      SumCountsEmpty(|p.slots|);
    } else {
      CountsAreLengths(vs[..|vs| - 1], p, born);
      SumCountsSplit(vs, |p.slots|);
      MentionsIsLength(vs[|vs| - 1].ring, |p.slots|);
    }
  }

  lemma {:induction false} RefsAreCounts(slots: seq<Frame>, vs: seq<VnicV>)
    requires forall x :: 0 <= x < |slots| ==> slots[x].refcnt == RefCount(vs, x)
    ensures SumRefs(slots) == SumCounts(vs, |slots|)
  {
    if slots != [] { RefsAreCounts(slots[..|slots| - 1], vs); }
  }

  /** References are conserved: they add up to the descriptors in all rings, the use counter is
      the number of slots with a reference, and empty rings mean an empty pool. */
  lemma ReferenceConservation(s: SwV, born: seq<nat>, now: nat)
    requires Inv(s, born, now) && Viewable(s, born)
    ensures SumRefs(s.pool.slots) == SumQueued(s.vnics)
    ensures s.pool.inUse == LiveCount(s.pool.slots)
    ensures (forall j :: 0 <= j < |s.vnics| ==> View(s, born).ports[j].q == []) <==> s.pool.inUse == 0
  {
    CountsAreLengths(s.vnics, s.pool, born);
    RefsAreCounts(s.pool.slots, s.vnics);
    NoneLive(s.pool.slots);
    forall j | 0 <= j < |s.vnics| ensures View(s, born).ports[j].q == [] <==> s.vnics[j].ring == [] {}
    if s.pool.inUse == 0 {
      forall j | 0 <= j < |s.vnics| ensures s.vnics[j].ring == [] {
        assert VnicOk(s, born, s.vnics[j]);
        assert s.vnics[j].ring != [] ==> Live(s.pool, s.vnics[j].ring[0]);
      }
    } else if forall j :: 0 <= j < |s.vnics| ==> View(s, born).ports[j].q == [] {
      var x :| 0 <= x < |s.pool.slots| && s.pool.slots[x].refcnt != 0;
      var j, k := LiveIsQueued(s, born, now, x);
      assert false;
    }
  }

  /** The receive interrupt is a level: pending exactly while the queue is not empty, after every
      operation of every good run. */
  lemma IrqIsLevel(s: SwV, born: seq<nat>, now: nat, es: seq<Event>, j: nat)
    requires Inv(s, born, now) && Viewable(s, born) && j < |s.vnics|
    requires GoodRun(View(s, born), now, es)
    ensures |Run(s, born, es).0.vnics| == |s.vnics|
    ensures |NetRun(View(s, born), es).ports| == |s.vnics|
    ensures Run(s, born, es).0.vnics[j].irq <==>
            NetRun(View(s, born), es).ports[j].q != []
  {
    RunRefines(s, born, now, es);
    var (s', born') := Run(s, born, es);
    assert VnicOk(s', born', s'.vnics[j]);
    assert |View(s', born').ports[j].q| == |s'.vnics[j].ring|;
  }

  // ---------------------------------------------------------------- when the reaper leaves stale descriptors

  ghost predicate AllLive(p: PoolV, q: seq<Desc>) {
    forall k :: 0 <= k < |q| ==> Live(p, q[k])
  }

  /** In each ring the frames that look aged on 32 bits come before those that do not. */
  ghost predicate AgedFirst(p: PoolV, q: seq<Desc>, tick: u32, timeout: u32) {
    forall k, l :: (0 <= k < l < |q| && q[k].slot < |p.slots| && q[l].slot < |p.slots| &&
                    Aged(p.slots[q[l].slot], tick, timeout)) ==> Aged(p.slots[q[k].slot], tick, timeout)
  }

  lemma {:induction false} SkipStaleLive(p: PoolV, q: seq<Desc>, n: nat)
    requires n <= |q| && (forall k :: 0 <= k < n ==> !Live(p, q[k])) && (n < |q| ==> Live(p, q[n]))
    ensures SkipStale(p, q) == q[n..]
  {
    if n > 0 { SkipStaleLive(p, q[1..], n - 1); }
  }

  function FirstLive(p: PoolV, q: seq<Desc>, i: nat := 0): (n: nat)
    requires i <= |q|
    ensures i <= n <= |q| && (n < |q| ==> Live(p, q[n])) && forall k :: i <= k < n ==> !Live(p, q[k])
    decreases |q| - i
  {
    if i == |q| || Live(p, q[i]) then i else FirstLive(p, q, i + 1)
  }

  lemma RingReaped(p: PoolV, born: seq<nat>, q: seq<Desc>, tick: u32, timeout: u32)
    requires RingOk(p, born, q) && timeout > 0
    ensures var p' := DropExpired(p, tick, timeout);
            AllLive(p', SkipStale(p', q)) <==> AgedFirst(p, q, tick, timeout)
  {
    var p' := DropExpired(p, tick, timeout);
    SkipStaleExact(p', q);
    assert forall k :: 0 <= k < |q| ==> (Live(p', q[k]) <==> !Aged(p.slots[q[k].slot], tick, timeout));
  }

  /** No live descriptor comes before a stale one. */
  ghost predicate StaleFirst(p: PoolV, q: seq<Desc>) {
    forall k, l :: 0 <= k < l < |q| && Live(p, q[k]) ==> Live(p, q[l])
  }

  lemma SkipStaleExact(p: PoolV, q: seq<Desc>)
    ensures AllLive(p, SkipStale(p, q)) <==> StaleFirst(p, q)
  {
    var n := FirstLive(p, q);
    SkipStaleLive(p, q, n);
    if AllLive(p, q[n..]) {
      forall k | n <= k < |q| ensures Live(p, q[k]) { assert q[n..][k - n] == q[k]; }
    }
  }

  /** For every state of the switch, whatever the ticks did before: when expiry frees a frame, it leaves
      only live descriptors in a ring if and only if no live descriptor of the ring comes before a
      stale one; when it frees none, it cleans nothing up. */
  lemma ReaperExact(s: SwV, tick: u32, timeout: u32, j: nat)
    requires timeout > 0 && j < |s.vnics|
    ensures var s' := Expire(s, tick, timeout);
            && |s'.vnics| == |s.vnics|
            && (AllLive(s'.pool, s'.vnics[j].ring) <==>
                if CountAged(s.pool.slots, tick, timeout) == 0 then AllLive(s'.pool, s.vnics[j].ring)
                else StaleFirst(s'.pool, s.vnics[j].ring))
  {
    SkipStaleExact(DropExpired(s.pool, tick, timeout), s.vnics[j].ring);
  }

  lemma {:induction false} NothingAged(slots: seq<Frame>, tick: u32, timeout: u32)
    requires forall x :: 0 <= x < |slots| ==> !Aged(slots[x], tick, timeout)
    ensures CountAged(slots, tick, timeout) == 0
  {
    if slots != [] { NothingAged(slots[..|slots| - 1], tick, timeout); }
  }

  /** A second expiry at the same tick changes nothing, so it cleans up nothing the first one left. */
  lemma ExpiryIsIdempotent(s: SwV, tick: u32, timeout: u32)
    ensures Expire(Expire(s, tick, timeout), tick, timeout) == Expire(s, tick, timeout)
  {
    if timeout > 0 {
      var p' := Expire(s, tick, timeout).pool;
      NothingAged(p'.slots, tick, timeout);
      assert DropExpired(p', tick, timeout).slots == p'.slots;
    }
  }

  /** As long as no descriptor is stale before: expiry leaves none in any ring if and only if in every
      ring the frames it frees are the first ones. */
  lemma ReaperKeepsLive(s: SwV, born: seq<nat>, now: nat, tick: u32, timeout: u32)
    requires Inv(s, born, now) && timeout > 0
    ensures var s' := Expire(s, tick, timeout);
            && |s'.vnics| == |s.vnics|
            && forall j :: 0 <= j < |s.vnics| ==>
                 (AllLive(s'.pool, s'.vnics[j].ring) <==> AgedFirst(s.pool, s.vnics[j].ring, tick, timeout))
  {
    var s' := Expire(s, tick, timeout);
    LiveCountReaped(s.pool.slots, s'.pool.slots, tick, timeout);
    forall j | 0 <= j < |s.vnics|
      ensures AllLive(s'.pool, s'.vnics[j].ring) <==> AgedFirst(s.pool, s.vnics[j].ring, tick, timeout)
    {
      assert VnicOk(s, born, s.vnics[j]);
      RingReaped(s.pool, born, s.vnics[j].ring, tick, timeout);
    }
  }

  // ---------------------------------------------------------------- a frame 2^32 ticks old

  const MAC_A := Mac(2, 0, 0, 0, 0, 1)
  const MAC_B := Mac(2, 0, 0, 0, 0, 2)

  /** A shortest frame from VM 0 to VM 1. */
  const FRAME_AB: seq<u8> := [2, 0, 0, 0, 0, 2, 2, 0, 0, 0, 0, 1, 0, 0]

  /** Two VMs, of which the first owns a and the second b, with q queued for the second. */
  function TwoVms(openA: bool, openB: bool, a: Option<Mac>, b: Option<Mac>, q: seq<Copy>, gens: seq<u16>): Net {
    Net([Port(openA, a, []), Port(openB, b, q)], false, 2, gens, 2)
  }

  const FIRST := Copy(0, 1, 0, FRAME_AB, 0)
  const SECOND := Copy(1, 1, 0, FRAME_AB, 1)

  lemma Addresses()
    ensures MacAt(FRAME_AB, 0) == MAC_B && MacAt(FRAME_AB, 6) == MAC_A
    ensures IsLocalUnicast(MAC_A) && IsLocalUnicast(MAC_B)
  {}

  /** VM 0 sends the frame while the numbers below x are in use. */
  lemma Sends(q: seq<Copy>, gens: seq<u16>, x: nat, now: nat, c: Copy)
    requires |q| < 2 == |gens| && x < 2 && c == Copy(x, Inc16(gens[x]), 0, FRAME_AB, now)
    requires Unused(TwoVms(true, true, Some(MAC_A), Some(MAC_B), q, gens)) == x
    ensures NetTx(TwoVms(true, true, Some(MAC_A), Some(MAC_B), q, gens), 0, FRAME_AB, now) ==
            (TwoVms(true, true, Some(MAC_A), Some(MAC_B), q + [c], gens[x := c.gen]), Ok)
  {
    Addresses();
    var n := TwoVms(true, true, Some(MAC_A), Some(MAC_B), q, gens);
    var ps := TwoVms(true, true, Some(MAC_A), Some(MAC_B), q + [c], gens).ports;
    assert Wanted(n, 0, MAC_B, 1) == 0;
    assert Receives(n, 0, MAC_B, 1) && !Receives(n, 0, MAC_B, 0);
    assert Enqueued(n, 0, MAC_B, c) == ps;
    assert NextCopy(n, 0, FRAME_AB, now) == c;
  }

  lemma FirstSent()
    ensures NetTx(TwoVms(true, true, Some(MAC_A), Some(MAC_B), [], [0, 0]), 0, FRAME_AB, 0) ==
            (TwoVms(true, true, Some(MAC_A), Some(MAC_B), [FIRST], [1, 0]), Ok)
  {
    Sends([], [0, 0], 0, 0, FIRST);
    assert [] + [FIRST] == [FIRST] && [0, 0][0 := 1] == [1, 0];
  }

  lemma SecondSent()
    ensures NetTx(TwoVms(true, true, Some(MAC_A), Some(MAC_B), [FIRST], [1, 0]), 0, FRAME_AB, 1) ==
            (TwoVms(true, true, Some(MAC_A), Some(MAC_B), [FIRST, SECOND], [1, 1]), Ok)
  {
    var n := TwoVms(true, true, Some(MAC_A), Some(MAC_B), [FIRST], [1, 0]);
    assert n.ports[1].q[0].slot == 0;
    assert InUse(n, 0) && !InUse(n, 1);
    Sends([FIRST], [1, 0], 1, 1, SECOND);
    assert [FIRST] + [SECOND] == [FIRST, SECOND] && [1, 0][1 := 1] == [1, 1];
  }

  lemma BothAssigned()
    ensures NetAssign(TwoVms(true, true, None, None, [], [0, 0]), 0, MAC_A) ==
            (TwoVms(true, true, Some(MAC_A), None, [], [0, 0]), Ok)
    ensures NetAssign(TwoVms(true, true, Some(MAC_A), None, [], [0, 0]), 1, MAC_B) ==
            (TwoVms(true, true, Some(MAC_A), Some(MAC_B), [], [0, 0]), Ok)
  {
    Addresses();
    var n, n1 := TwoVms(true, true, None, None, [], [0, 0]), TwoVms(true, true, Some(MAC_A), None, [], [0, 0]);
    assert Owners(n) == {} && Owners(n1) == {0};
    assert !Owned(n, MAC_A) && !Owned(n1, MAC_B);
    assert n.ports[0 := Port(true, Some(MAC_A), [])] == n1.ports;
    assert n1.ports[1 := Port(true, Some(MAC_B), [])] == TwoVms(true, true, Some(MAC_A), Some(MAC_B), [], [0, 0]).ports;
  }

  /** Both VMs open and get their addresses, then VM 0 sends at ticks 0 and 1. */
  function TwoFrames(k: nat): (es: seq<Event>)
    requires k <= 6
    ensures |es| == k
  {
    [Event(0, OpenOp(0)), Event(0, OpenOp(1)), Event(0, AssignOp(0, MAC_A)), Event(0, AssignOp(1, MAC_B)),
     Event(0, TxOp(0, FRAME_AB)), Event(1, TxOp(0, FRAME_AB))][..k]
  }

  lemma TwoFramesStep(k: nat)
    requires k < 6
    ensures TwoFrames(k + 1)[..k] == TwoFrames(k)
    ensures NetRun(EmptyNet(2, 2, 2, 2, false), TwoFrames(k + 1)) ==
            NetStep(NetRun(EmptyNet(2, 2, 2, 2, false), TwoFrames(k)), TwoFrames(k + 1)[k]).0
    ensures GoodRun(EmptyNet(2, 2, 2, 2, false), 0, TwoFrames(k)) ==>
            GoodRun(EmptyNet(2, 2, 2, 2, false), 0, TwoFrames(k + 1))
  {}

  lemma TwoFramesOpened()
    ensures GoodRun(EmptyNet(2, 2, 2, 2, false), 0, TwoFrames(2))
    ensures NetRun(EmptyNet(2, 2, 2, 2, false), TwoFrames(2)) == TwoVms(true, true, None, None, [], [0, 0])
  {
    var n := EmptyNet(2, 2, 2, 2, false);
    assert n == TwoVms(false, false, None, None, [], [0, 0]);
    assert NetRun(n, TwoFrames(0)) == n;
    TwoFramesStep(0);
    assert NetRun(n, TwoFrames(1)) == TwoVms(true, false, None, None, [], [0, 0]);
    TwoFramesStep(1);
    assert NetRun(n, TwoFrames(2)) == TwoVms(true, true, None, None, [], [0, 0]);
  }

  lemma TwoFramesAssigned()
    ensures GoodRun(EmptyNet(2, 2, 2, 2, false), 0, TwoFrames(4))
    ensures NetRun(EmptyNet(2, 2, 2, 2, false), TwoFrames(4)) ==
            TwoVms(true, true, Some(MAC_A), Some(MAC_B), [], [0, 0])
  {
    TwoFramesOpened();
    BothAssigned();
    TwoFramesStep(2);
    TwoFramesStep(3);
  }

  lemma TwoFramesQueued()
    ensures GoodRun(EmptyNet(2, 2, 2, 2, false), 0, TwoFrames(6))
    ensures NetRun(EmptyNet(2, 2, 2, 2, false), TwoFrames(6)) ==
            TwoVms(true, true, Some(MAC_A), Some(MAC_B), [FIRST, SECOND], [1, 1])
  {
    TwoFramesAssigned();
    FirstSent();
    TwoFramesStep(4);
    SecondSent();
    TwoFramesStep(5);
  }

  /** The state after a run of the switch from power-up. */
  ghost function SwitchAfter(es: seq<Event>): SwV {
    Run(Init(2, 2, 2, 2, false), NoBirths(2), es).0
  }

  /** Expiry leaves a stale descriptor behind the live head of VM 1's ring. */
  ghost predicate Blocks(s: SwV, s': SwV) {
    && |s.vnics| == |s'.vnics| == 2 && |s.vnics[1].ring| == 2
    && s'.vnics[1].ring == s.vnics[1].ring
    && Live(s'.pool, s'.vnics[1].ring[0]) && !Live(s'.pool, s'.vnics[1].ring[1])
  }

  /** The 2^32 bound is needed: after that run from power-up, at tick 2^32 the older frame looks new
      again, only the younger one is freed, and its descriptor stays behind a live head. */
  lemma AncientFrameBlocks()
    ensures Blocks(SwitchAfter(TwoFrames(6)), Step(SwitchAfter(TwoFrames(6)), Event(TWO32, ExpireOp(1))).0)
  {
    TwoFramesQueued();
    BlocksAfter(2, 2, 2, 2, TwoFrames(6));
  }

  lemma BlocksAfter(n: u32, frames: u16, fdbCap: u16, ringCap: u16, es: seq<Event>)
    requires n > 0 && ringCap > 0
    requires GoodRun(EmptyNet(n, frames, fdbCap, ringCap, false), 0, es) && EndTick(0, es) == 1
    requires NetRun(EmptyNet(n, frames, fdbCap, ringCap, false), es) ==
             TwoVms(true, true, Some(MAC_A), Some(MAC_B), [FIRST, SECOND], [1, 1])
    ensures var s := Run(Init(n, frames, fdbCap, ringCap, false), NoBirths(frames), es).0;
            Blocks(s, Step(s, Event(TWO32, ExpireOp(1))).0)
  {
    var (s, born) := Run(Init(n, frames, fdbCap, ringCap, false), NoBirths(frames), es);
    assert Inv(s, born, 1) && Viewable(s, born) && View(s, born) == NetRun(EmptyNet(n, frames, fdbCap, ringCap, false), es) by {
      SwitchIsFifos(n, frames, fdbCap, ringCap, false, es);
    }
    OnlyTheYoungerGoes(s, born);
  }

  lemma OnlyTheYoungerGoes(s: SwV, born: seq<nat>)
    requires Inv(s, born, 1) && Viewable(s, born)
    requires View(s, born) == TwoVms(true, true, Some(MAC_A), Some(MAC_B), [FIRST, SECOND], [1, 1])
    ensures Blocks(s, Step(s, Event(TWO32, ExpireOp(1))).0)
  {
    var q := s.vnics[1].ring;
    assert VnicOk(s, born, s.vnics[1]);
    assert View(s, born).ports[1].q == [FIRST, SECOND];
    assert CopyOf(s.pool, born, q[0]) == FIRST && CopyOf(s.pool, born, q[1]) == SECOND;
    assert Tick(TWO32) == 0;
    assert !Aged(s.pool.slots[0], 0, 1) && Aged(s.pool.slots[1], 0, 1);
    assert SkipStale(DropExpired(s.pool, 0, 1), q) == q;
    AgedSlotsSize(s.pool.slots, 0, 1);
    assert 1 in AgedSlots(s.pool.slots, 0, 1);
  }
}
