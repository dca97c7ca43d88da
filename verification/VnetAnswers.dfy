/** What a caller of the switch sees, in terms of the frame's bytes and of the queues: the answer of
    every call and its effect, for every state that satisfies the invariant. */
module VnetAnswers {
  import opened Base
  import opened VnetCodes
  import opened VnetMac
  import opened VnetPool
  import opened VnetSwitch
  import opened VnetInvariant
  import opened VnetFifo
  import opened VnetRuns

  const ZEROS: seq<u8> := [0, 0, 0, 0, 0, 0]

  /** The state a call leaves, as queues. */
  ghost function Later(s: SwV, born: seq<nat>, e: Event): Net
    requires Viewable(Step(s, e).0, BornAfter(s, born, e))
  {
    View(Step(s, e).0, BornAfter(s, born, e))
  }

  ghost predicate Ready(s: SwV, born: seq<nat>, now: nat, e: Event) {
    && Inv(s, born, now) && now <= e.now && Timely(s, born, e)
    && Viewable(s, born) && Viewable(Step(s, e).0, BornAfter(s, born, e))
  }

  // ---------------------------------------------------------------- transmission

  /** The frame can be sent by VM src: it is open, owns an address, and the length is admissible. */
  predicate Sends(n: Net, src: u32, frame: seq<u8>) {
    src < |n.ports| && n.ports[src].open && n.ports[src].mac.Some? && 14 <= |frame| <= 1536
  }

  /** Bytes 6 to 11 are the sender's own address. */
  predicate FromItself(n: Net, src: u32, frame: seq<u8>) {
    Sends(n, src, frame) && OwnedAs(n.ports[src], frame[6..12])
  }

  /** Some slot of the frame pool is free. */
  predicate RoomLeft(s: SwV) {
    exists x | 0 <= x < |s.pool.slots| :: s.pool.slots[x].refcnt == 0
  }

  /** Port j would take the frame: an open port with room, other than the sender, that the first six
      bytes name; an odd first byte names everybody, and with flooding so does an address nobody owns. */
  predicate Hears(n: Net, src: u32, frame: seq<u8>, j: nat)
    requires j < |n.ports| && |frame| >= 14
  {
    && j != src && n.ports[j].open && |n.ports[j].q| < n.cap
    && frame[..6] != ZEROS
    && (|| frame[0] % 2 == 1
        || OwnedAs(n.ports[j], frame[..6])
        || (n.flood && forall k :: 0 <= k < |n.ports| ==> !OwnedAs(n.ports[k], frame[..6])))
  }

  function HearersBelow(n: Net, src: u32, frame: seq<u8>, j: nat): nat
    requires j <= |n.ports| && |frame| >= 14
  {
    if j == 0 then 0 else HearersBelow(n, src, frame, j - 1) + if Hears(n, src, frame, j - 1) then 1 else 0
  }

  /** It does take it; a frame has at most 65534 receivers, the first ones. */
  predicate Takes(n: Net, src: u32, frame: seq<u8>, j: nat)
    requires j < |n.ports| && |frame| >= 14
  {
    Hears(n, src, frame, j) && HearersBelow(n, src, frame, j) < 65534
  }

  lemma HearsIsWants(n: Net, src: u32, frame: seq<u8>, j: nat)
    requires j < |n.ports| && |frame| >= 14
    ensures Hears(n, src, frame, j) <==> Wants(n, src, MacAt(frame, 0), j)
  {
    assert frame[0..6] == frame[..6];
    SpelledOut(n.ports[j], frame, 0);
    forall k | 0 <= k < |n.ports|
      ensures OwnedAs(n.ports[k], frame[..6]) <==> n.ports[k].mac == Some(MacAt(frame, 0))
    {
      SpelledOut(n.ports[k], frame, 0);
    }
  }

  lemma {:induction false} HearersAreWanted(n: Net, src: u32, frame: seq<u8>, j: nat)
    requires j <= |n.ports| && |frame| >= 14
    ensures HearersBelow(n, src, frame, j) == Wanted(n, src, MacAt(frame, 0), j)
  {
    if j > 0 {
      HearersAreWanted(n, src, frame, j - 1);
      HearsIsWants(n, src, frame, j - 1);
    }
  }

  lemma TakesIsReceives(n: Net, src: u32, frame: seq<u8>, j: nat)
    requires j < |n.ports| && |frame| >= 14
    ensures Takes(n, src, frame, j) <==> Receives(n, src, MacAt(frame, 0), j)
  {
    HearsIsWants(n, src, frame, j);
    HearersAreWanted(n, src, frame, j);
  }

  /** Owned addresses are local unicast ones. */
  lemma OwnIsUnicast(s: SwV, born: seq<nat>, now: nat, src: u32, frame: seq<u8>)
    requires Inv(s, born, now) && Viewable(s, born) && FromItself(View(s, born), src, frame)
    ensures frame[6..12] != ZEROS && frame[6] % 2 == 0
  {
    assert PinnedTo(s.fdb, s.vnics[src].mac, src);
    SpelledOut(View(s, born).ports[src], frame, 6);
  }

  lemma RoomIsUnused(s: SwV, born: seq<nat>, now: nat)
    requires Inv(s, born, now) && Viewable(s, born)
    ensures RoomLeft(s) <==> Unused(View(s, born)) < |s.pool.slots| && Unused(View(s, born)) < BAD_SLOT
  {
    UnusedIsFirstFree(s, born, now, 0);
  }

  /** When a transmission is refused, and with which code, before any receiver is looked for. */
  lemma RefusalAnswers(s: SwV, born: seq<nat>, now: nat, src: u32, frame: seq<u8>)
    requires Inv(s, born, now) && Viewable(s, born)
    ensures var n, r := View(s, born), NetRefusal(View(s, born), src, frame);
            && (r == Some(BadArg) <==> src >= |n.ports|)
            && (r == Some(NotOpen) <==> src < |n.ports| && !n.ports[src].open)
            && (r == Some(NoMac) <==> src < |n.ports| && n.ports[src].open && n.ports[src].mac.None?)
            && (r == Some(FrameLen) <==> src < |n.ports| && n.ports[src].open && n.ports[src].mac.Some? && !Sends(n, src, frame))
            && (r == Some(Malformed) <==> Sends(n, src, frame) && (frame[6..12] == ZEROS || frame[6] % 2 == 1))
            && (r == Some(Spoof) <==> Sends(n, src, frame) && frame[6..12] != ZEROS && frame[6] % 2 == 0 && !FromItself(n, src, frame))
            && (r == None <==> FromItself(n, src, frame))
  {
    var n := View(s, born);
    if Sends(n, src, frame) {
      SpelledOut(n.ports[src], frame, 6);
      if FromItself(n, src, frame) { OwnIsUnicast(s, born, now, src, frame); }
    }
  }

  /** The answer to a frame from its own sender. */
  ghost predicate TakenAnswer(n: Net, src: u32, f: seq<u8>, room: bool, r: Reply)
    requires |f| >= 14
  {
    var heard := exists j | 0 <= j < |n.ports| :: Takes(n, src, f, j);
    && (r == Status(PoolFull) <==> !room)
    && (r == Status(Malformed) <==> room && f[..6] == ZEROS)
    && (r == Status(Ok) <==> room && heard)
    && (r == Status(DroppedPolicy) <==> room && !heard && f[0] % 2 == 1)
    && (r == Status(DroppedUnknown) <==> room && !heard && f[0] % 2 == 0 && f[..6] != ZEROS)
  }

  lemma TakenAnswers(n: Net, src: u32, f: seq<u8>, now: nat)
    requires |f| >= 14 && NetRefusal(n, src, f).None?
    ensures TakenAnswer(n, src, f, Unused(n) < |n.gens| && Unused(n) < BAD_SLOT, Status(NetTx(n, src, f, now).1))
  {
    assert f[0..6] == f[..6];
    SpelledOut(n.ports[src], f, 0);
    forall j | 0 <= j < |n.ports| ensures Takes(n, src, f, j) <==> Receives(n, src, MacAt(f, 0), j) {
      TakesIsReceives(n, src, f, j);
    }
  }

  /** The answer to a transmission, code by code. */
  lemma TransmitAnswers(s: SwV, born: seq<nat>, now: nat, e: Event)
    requires Ready(s, born, now, e) && e.op.TxOp?
    ensures var n, src, f, r := View(s, born), e.op.vm, e.op.frame, Step(s, e).1;
            if FromItself(n, src, f) then TakenAnswer(n, src, f, RoomLeft(s), r)
            else
              && (r == Status(BadArg) <==> src >= |n.ports|)
              && (r == Status(NotOpen) <==> src < |n.ports| && !n.ports[src].open)
              && (r == Status(NoMac) <==> src < |n.ports| && n.ports[src].open && n.ports[src].mac.None?)
              && (r == Status(FrameLen) <==> src < |n.ports| && n.ports[src].open && n.ports[src].mac.Some? && !Sends(n, src, f))
              && (r == Status(Malformed) <==> Sends(n, src, f) && (f[6..12] == ZEROS || f[6] % 2 == 1))
              && (r == Status(Spoof) <==> Sends(n, src, f) && f[6..12] != ZEROS && f[6] % 2 == 0)
  {
    StepRefines(s, born, now, e);
    RefusalAnswers(s, born, now, e.op.vm, e.op.frame);
    RoomIsUnused(s, born, now);
    if FromItself(View(s, born), e.op.vm, e.op.frame) { TakenAnswers(View(s, born), e.op.vm, e.op.frame, e.now); }
  }

  /** A VM is never refused for its own address, whatever its six bytes are. */
  lemma OwnAddressIsAccepted(s: SwV, born: seq<nat>, now: nat, e: Event)
    requires Ready(s, born, now, e) && e.op.TxOp? && FromItself(View(s, born), e.op.vm, e.op.frame)
    ensures Step(s, e).1 != Status(Spoof)
    ensures e.op.frame[..6] != ZEROS ==> Step(s, e).1 != Status(Malformed)
  {
    TransmitAnswers(s, born, now, e);
  }

  /** Whose queue grows, and by what; nothing else changes on any port. */
  lemma TransmitDelivers(s: SwV, born: seq<nat>, now: nat, e: Event, j: nat)
    requires Ready(s, born, now, e) && e.op.TxOp? && j < |s.vnics|
    ensures var n, n', src, f := View(s, born), Later(s, born, e), e.op.vm, e.op.frame;
            && |n'.ports| == |n.ports| == |s.vnics|
            && n'.ports[j].open == n.ports[j].open && n'.ports[j].mac == n.ports[j].mac
            && if FromItself(n, src, f) && RoomLeft(s) && Takes(n, src, f, j) then
                 && |n'.ports[j].q| == |n.ports[j].q| + 1 && n'.ports[j].q[..|n.ports[j].q|] == n.ports[j].q
                 && var c := n'.ports[j].q[|n.ports[j].q|];
                    c.src == src && c.bytes == f && c.birth == e.now
               else n'.ports[j].q == n.ports[j].q
  {
    var n, src, f := View(s, born), e.op.vm, e.op.frame;
    StepRefines(s, born, now, e);
    RefusalAnswers(s, born, now, src, f);
    RoomIsUnused(s, born, now);
    if FromItself(n, src, f) { TakesIsReceives(n, src, f, j); }
  }

  // ---------------------------------------------------------------- the other calls

  /** Opening: only the open flag of that VM changes, and the answer names every field. */
  lemma OpenAnswers(s: SwV, born: seq<nat>, now: nat, e: Event)
    requires Ready(s, born, now, e) && e.op.OpenOp?
    ensures var n, n', i := View(s, born), Later(s, born, e), e.op.vm;
            if i >= |n.ports| then n' == n && Step(s, e).1 == Status(BadArg)
            else
              && n' == n.(ports := n.ports[i := Port(true, n.ports[i].mac, n.ports[i].q)])
              && Step(s, e).1.Info?
              && var info := Step(s, e).1.info;
                 info.abi == 1 && info.features == 0 && info.mtu == 1536 && info.rxIrq == 130 && info.mac == n.ports[i].mac
  {
    StepRefines(s, born, now, e);
  }

  /** m is a locally administered unicast address: not all zero, bit 0 of the first byte clear, bit 1 set. */
  predicate MayBeOwned(m: Mac) {
    m.b0 % 4 == 2
  }

  /** The answer to an assignment, code by code; a success gives the VM that address and changes nothing
      else. */
  ghost predicate AssignAnswer(n: Net, i: u32, m: Mac, n': Net, r: Reply) {
    var may := i < |n.ports| && n.ports[i].open && MayBeOwned(m);
    var owned := exists k | 0 <= k < |n.ports| :: k != i && n.ports[k].mac == Some(m);
    && (r == Status(BadArg) <==> i >= |n.ports|)
    && (r == Status(NotOpen) <==> i < |n.ports| && !n.ports[i].open)
    && (r == Status(InvalMac) <==> i < |n.ports| && n.ports[i].open && !MayBeOwned(m))
    && (r == Status(DupMac) <==> may && n.ports[i].mac != Some(m) && (n.ports[i].mac.Some? || owned))
    && (r == Status(NotReady) <==> may && n.ports[i].mac.None? && !owned && |Owners(n)| >= n.table)
    && (r == Status(Ok) <==> may && (n.ports[i].mac == Some(m) ||
                                     (n.ports[i].mac.None? && !owned && |Owners(n)| < n.table)))
    && n' == if r == Status(Ok) then n.(ports := n.ports[i := Port(true, Some(m), n.ports[i].q)]) else n
  }

  lemma AssignAnswered(n: Net, e: Event)
    requires e.op.AssignOp?
    ensures AssignAnswer(n, e.op.vm, e.op.mac, NetStep(n, e).0, NetStep(n, e).1)
  {
    var i, m := e.op.vm, e.op.mac;
    LocalUnicastIs(m);
    if i < |n.ports| && n.ports[i].mac.None? {
      assert Owned(n, m) <==> exists k | 0 <= k < |n.ports| :: k != i && n.ports[k].mac == Some(m);
    }
    if i < |n.ports| && n.ports[i].mac == Some(m) && n.ports[i].open {
      assert n.ports[i := Port(true, Some(m), n.ports[i].q)] == n.ports;
    }
  }

  lemma AssignAnswers(s: SwV, born: seq<nat>, now: nat, e: Event)
    requires Ready(s, born, now, e) && e.op.AssignOp?
    ensures AssignAnswer(View(s, born), e.op.vm, e.op.mac, Later(s, born, e), Step(s, e).1)
  {
    StepRefines(s, born, now, e);
    AssignAnswered(View(s, born), e);
  }

  lemma LocalUnicastIs(m: Mac)
    ensures IsLocalUnicast(m) <==> MayBeOwned(m)
  {}

  /** The calls of a receiver: refused for an unknown or closed VM; otherwise they tell about the front of
      its queue, only a release with the front's cookie changes anything, and that takes the front. */
  ghost predicate ReceiverAnswer(n: Net, op: Op, n': Net, r: Reply)
    requires IsReceive(op)
  {
    var i := op.vm;
    && (r == Status(NotOpen) <==> i < |n.ports| && !n.ports[i].open)
    && (i >= |n.ports| ==> r == Status(BadArg))
    && (i < |n.ports| && n.ports[i].open ==> FrontAnswer(n.ports[i].q, op, r))
    && n' == if i < |n.ports| && n.ports[i].open && Removes(n.ports[i].q, op)
             then n.(ports := n.ports[i := n.ports[i].(q := n.ports[i].q[1..])]) else n
  }

  lemma ReceiversAnswered(n: Net, e: Event)
    requires IsReceive(e.op)
    ensures ReceiverAnswer(n, e.op, NetStep(n, e).0, NetStep(n, e).1)
  {}

  lemma ReceiverAnswers(s: SwV, born: seq<nat>, now: nat, e: Event)
    requires Ready(s, born, now, e) && IsReceive(e.op)
    ensures ReceiverAnswer(View(s, born), e.op, Later(s, born, e), Step(s, e).1)
  {
    StepRefines(s, born, now, e);
    ReceiversAnswered(View(s, born), e);
  }

  /** A release that quotes the cookie of the front. */
  predicate Removes(q: seq<Copy>, op: Op) {
    op.ReleaseOp? && q != [] && q[0].slot == op.slot && q[0].gen == op.gen
  }

  predicate FrontAnswer(q: seq<Copy>, op: Op, r: Reply) {
    match op
    case AckOp(_) => r == Pending(|q| > 0)
    case PollOp(_) =>
      if q == [] then r == Status(Empty)
      else r.Meta? && r.slot == q[0].slot && r.gen == q[0].gen && r.len == |q[0].bytes| && r.src == q[0].src
    case ReadOp(_, slot, gen, room) =>
      && (r == Status(Empty) <==> q == [])
      && (r == Status(NotOwner) <==> q != [] && !(q[0].slot == slot && q[0].gen == gen))
      && (r == Status(BadArg) <==> q != [] && q[0].slot == slot && q[0].gen == gen && |q[0].bytes| > room)
      && (r.Bytes? <==> q != [] && q[0].slot == slot && q[0].gen == gen && |q[0].bytes| <= room)
      && (r.Bytes? ==> r.bytes == q[0].bytes)
    case ReleaseOp(_, _, _) =>
      && (r == Status(Empty) <==> q == [])
      && (r == Status(Ok) <==> Removes(q, op))
      && (r == Status(NotOwner) <==> q != [] && !Removes(q, op))
    case _ => false
  }

  /** Where the copies of q that reached the timeout end. */
  ghost predicate SplitsAt(q: seq<Copy>, k: nat, now: nat, timeout: u32) {
    && k <= |q|
    && (forall x :: 0 <= x < k ==> now - q[x].birth >= timeout)
    && (forall x :: k <= x < |q| ==> now - q[x].birth < timeout)
  }

  lemma {:induction false} OldOnesAreOld(q: seq<Copy>, now: nat, timeout: u32)
    ensures forall x :: 0 <= x < |Old(q, now, timeout)| ==> now - Old(q, now, timeout)[x].birth >= timeout
    ensures forall x :: 0 <= x < |Young(q, now, timeout)| ==> now - Young(q, now, timeout)[x].birth < timeout
  {
    if q != [] { OldOnesAreOld(q[1..], now, timeout); }
  }

  lemma YoungSplits(q: seq<Copy>, now: nat, timeout: u32) returns (k: nat)
    requires InOrder(q, now)
    ensures SplitsAt(q, k, now, timeout) && Young(q, now, timeout) == q[k..]
  {
    OldThenYoung(q, now, timeout);
    OldOnesAreOld(q, now, timeout);
    k := |Old(q, now, timeout)|;
  }

  /** Expiry takes from every queue exactly the copies that reached the timeout, which are its front part,
      and changes nothing else; a timeout of 0 takes nothing. */
  lemma ExpiryTakes(s: SwV, born: seq<nat>, now: nat, e: Event, j: nat) returns (k: nat)
    requires Ready(s, born, now, e) && e.op.ExpireOp? && j < |s.vnics|
    ensures |Later(s, born, e).ports| == |s.vnics| == |View(s, born).ports|
    ensures var p, p' := View(s, born).ports[j], Later(s, born, e).ports[j];
            && p'.open == p.open && p'.mac == p.mac && k <= |p.q| && p'.q == p.q[k..]
            && if e.op.timeout == 0 then k == 0 else SplitsAt(p.q, k, e.now, e.op.timeout)
  {
    StepRefines(s, born, now, e);
    if e.op.timeout == 0 {
      k := 0;
    } else {
      QueuesAreInOrder(s, born, now, j);
      LaterInOrder(View(s, born).ports[j].q, now, e.now);
      k := YoungSplits(View(s, born).ports[j].q, e.now, e.op.timeout);
    }
  }

  lemma QueuesAreInOrder(s: SwV, born: seq<nat>, now: nat, j: nat)
    requires Inv(s, born, now) && Viewable(s, born) && j < |s.vnics|
    ensures InOrder(View(s, born).ports[j].q, now)
  {
    assert VnicOk(s, born, s.vnics[j]);
  }

  lemma LaterInOrder(q: seq<Copy>, now: nat, now': nat)
    requires InOrder(q, now) && now <= now'
    ensures InOrder(q, now')
  {}
}
