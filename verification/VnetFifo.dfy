/** What the switch is for: one FIFO of private frame copies per VM. The shared pool, the rings,
    the reference counts and the generations are proved to behave exactly like that in every run. */
module VnetFifo {
  import opened Base
  import opened VnetCodes
  import opened VnetMac
  import opened VnetPool
  import opened VnetRing
  import opened VnetSwitch
  import opened VnetInvariant
  import F = VnetFdb

  // ---------------------------------------------------------------- the simple form

  type Payload = s: seq<u8> | |s| <= FRAME_MAX

  /** A private copy of a frame, with the cookie its reader quotes. */
  datatype Copy = Copy(slot: u16, gen: u16, src: u32, bytes: Payload, birth: nat)

  datatype Port = Port(open: bool, mac: Option<Mac>, q: seq<Copy>)

  /** The ports, whether unowned addresses are flooded, the queue capacity, how often (on 16 bits)
      each cookie number was given out, and how many addresses can be owned. */
  datatype Net = Net(ports: seq<Port>, flood: bool, cap: nat, gens: seq<u16>, table: nat)

  datatype Op =
    | OpenOp(vm: u32)
    | AssignOp(vm: u32, mac: Mac)
    | TxOp(vm: u32, frame: seq<u8>)
    | PollOp(vm: u32)
    | ReadOp(vm: u32, slot: u16, gen: u16, dstLen: u16)
    | ReleaseOp(vm: u32, slot: u16, gen: u16)
    | AckOp(vm: u32)
    | ExpireOp(timeout: u32)

  /** An operation at an (unbounded) tick. */
  datatype Event = Event(now: nat, op: Op)

  /** The port's address is these six bytes. */
  predicate OwnedAs(p: Port, b: seq<u8>) {
    p.mac.Some? && var m := p.mac.value; b == [m.b0, m.b1, m.b2, m.b3, m.b4, m.b5]
  }

  predicate Owned(n: Net, m: Mac) {
    exists j | 0 <= j < |n.ports| :: n.ports[j].mac == Some(m)
  }

  function NetRefusal(n: Net, src: u32, frame: seq<u8>): Option<Code> {
    if src >= |n.ports| then Some(BadArg)
    else if !n.ports[src].open then Some(NotOpen)
    else if n.ports[src].mac.None? then Some(NoMac)
    else if |frame| < FRAME_MIN || |frame| > FRAME_MAX then Some(FrameLen)
    else if MacAt(frame, 6) == ZERO_MAC || IsMulticast(MacAt(frame, 6)) then Some(Malformed)
    else if n.ports[src].mac != Some(MacAt(frame, 6)) then Some(Spoof)
    else None
  }

  /** Port j would take a frame from src for dst: group frames go to everyone else, unicast frames to
      the owner of the address, unowned ones to everyone else or nobody. */
  predicate Wants(n: Net, src: u32, dst: Mac, j: nat)
    requires j < |n.ports|
  {
    && j != src && n.ports[j].open && |n.ports[j].q| < n.cap
    && dst != ZERO_MAC
    && (IsMulticast(dst) || n.ports[j].mac == Some(dst) || (n.flood && !Owned(n, dst)))
  }

  /** How many ports below j would. */
  function Wanted(n: Net, src: u32, dst: Mac, j: nat): (c: nat)
    requires j <= |n.ports|
    ensures c <= j
  {
    if j == 0 then 0 else Wanted(n, src, dst, j - 1) + if Wants(n, src, dst, j - 1) then 1 else 0
  }

  /** Port j receives the frame; no more than MAX_COPIES ports do, the first ones. */
  predicate Receives(n: Net, src: u32, dst: Mac, j: nat)
    requires j < |n.ports|
  {
    Wants(n, src, dst, j) && Wanted(n, src, dst, j) < MAX_COPIES
  }

  function Enqueued(n: Net, src: u32, dst: Mac, c: Copy): seq<Port> {
    seq(|n.ports|, j requires 0 <= j < |n.ports| =>
      if Receives(n, src, dst, j) then n.ports[j].(q := n.ports[j].q + [c]) else n.ports[j])
  }

  /** Some queued copy has cookie number x. */
  predicate InUse(n: Net, x: nat) {
    exists j | 0 <= j < |n.ports| :: exists k | 0 <= k < |n.ports[j].q| :: n.ports[j].q[k].slot == x
  }

  /** The lowest cookie number from x on that no queued copy has; |n.gens| when there is none. */
  function Unused(n: Net, x: nat := 0): (r: nat)
    requires x <= |n.gens|
    ensures x <= r <= |n.gens| && (r < |n.gens| ==> !InUse(n, r))
    ensures forall y :: x <= y < r ==> InUse(n, y)
    decreases |n.gens| - x
  {
    if x == |n.gens| || !InUse(n, x) then x else Unused(n, x + 1)
  }

  /** A frame is taken up when it passes the checks and a cookie number is unused. */
  predicate Admits(n: Net, src: u32, frame: seq<u8>) {
    NetRefusal(n, src, frame).None? && Unused(n) < |n.gens| && Unused(n) < BAD_SLOT
  }

  /** The copy every receiver of the frame gets. */
  function NextCopy(n: Net, src: u32, frame: seq<u8>, now: nat): Copy
    requires Admits(n, src, frame)
  {
    Copy(Unused(n), Inc16(n.gens[Unused(n)]), src, frame, now)
  }

  function NetTx(n: Net, src: u32, frame: seq<u8>, now: nat): (Net, Code) {
    if NetRefusal(n, src, frame).Some? then (n, NetRefusal(n, src, frame).value)
    else if !Admits(n, src, frame) then (n, PoolFull)
    else
      var c, dst := NextCopy(n, src, frame, now), MacAt(frame, 0);
      (n.(ports := Enqueued(n, src, dst, c), gens := n.gens[c.slot := c.gen]),
       Verdict(exists j | 0 <= j < |n.ports| :: Receives(n, src, dst, j), dst))
  }

  /** The ports that own an address. */
  function Owners(n: Net): set<nat> {
    set j: nat | j < |n.ports| && n.ports[j].mac.Some?
  }

  function NetAssign(n: Net, vm: u32, m: Mac): (Net, Code) {
    if vm >= |n.ports| then (n, BadArg)
    else if !n.ports[vm].open then (n, NotOpen)
    else if !IsLocalUnicast(m) then (n, InvalMac)
    else if n.ports[vm].mac.Some? then (n, if n.ports[vm].mac.value == m then Ok else DupMac)
    else if Owned(n, m) then (n, DupMac)
    else if |Owners(n)| >= n.table then (n, NotReady)
    else (n.(ports := n.ports[vm := n.ports[vm].(mac := Some(m))]), Ok)
  }

  /** The copies younger than the timeout, in order. */
  function Young(q: seq<Copy>, now: nat, timeout: u32): seq<Copy> {
    if q == [] then []
    else if now - q[0].birth < timeout then [q[0]] + Young(q[1..], now, timeout)
    else Young(q[1..], now, timeout)
  }

  function NetExpire(n: Net, now: nat, timeout: u32): Net {
    if timeout == 0 then n
    else n.(ports := seq(|n.ports|, j requires 0 <= j < |n.ports| =>
              n.ports[j].(q := Young(n.ports[j].q, now, timeout))))
  }

  /** Some queued copy with cookie number x reached the timeout. */
  predicate Overdue(n: Net, now: nat, timeout: u32, x: nat) {
    exists j | 0 <= j < |n.ports| :: exists k | 0 <= k < |n.ports[j].q| ::
      n.ports[j].q[k].slot == x && now - n.ports[j].q[k].birth >= timeout
  }

  /** The cookie numbers of the copies that expiry takes. */
  function Expiring(n: Net, now: nat, timeout: u32): set<nat> {
    if timeout == 0 then {} else set x: nat | x < |n.gens| && Overdue(n, now, timeout, x)
  }

  function NetStep(n: Net, e: Event): (Net, Reply) {
    match e.op
    case OpenOp(vm) =>
      if vm >= |n.ports| then (n, Status(BadArg))
      else (n.(ports := n.ports[vm := n.ports[vm].(open := true)]), Info(InfoFor(n.ports[vm].mac)))
    case AssignOp(vm, m) => var (n', c) := NetAssign(n, vm, m); (n', Status(c))
    case TxOp(vm, frame) => var (n', c) := NetTx(n, vm, frame, e.now); (n', Status(c))
    case ExpireOp(timeout) => (NetExpire(n, e.now, timeout), Count(|Expiring(n, e.now, timeout)|))
    case _ =>
      var vm := e.op.vm;
      if vm >= |n.ports| then (n, Status(BadArg))
      else if !n.ports[vm].open then (n, Status(NotOpen))
      else NetReceive(n, e.op)
  }

  /** The receiver calls of an open port: they see and remove the front, and nothing else. */
  function NetReceive(n: Net, op: Op): (Net, Reply)
    requires op.PollOp? || op.ReadOp? || op.ReleaseOp? || op.AckOp?
    requires op.vm < |n.ports|
  {
    var p := n.ports[op.vm];
    match op
    case AckOp(_) => (n, Pending(p.q != []))
    case PollOp(_) =>
      (n, if p.q == [] then Status(Empty)
          else Meta(p.q[0].slot, p.q[0].gen, |p.q[0].bytes|, p.q[0].src))
    case ReadOp(_, slot, gen, dstLen) =>
      (n, if p.q == [] then Status(Empty)
          else if p.q[0].slot != slot || p.q[0].gen != gen then Status(NotOwner)
          else if dstLen < |p.q[0].bytes| then Status(BadArg)
          else Bytes(p.q[0].bytes))
    case ReleaseOp(vm, slot, gen) =>
      if p.q == [] then (n, Status(Empty))
      else if p.q[0].slot != slot || p.q[0].gen != gen then (n, Status(NotOwner))
      else (n.(ports := n.ports[vm := p.(q := p.q[1..])]), Status(Ok))
  }

  // ---------------------------------------------------------------- the switch, same alphabet

  function Step(s: SwV, e: Event): (SwV, Reply) {
    var now := Tick(e.now);
    match e.op
    case OpenOp(vm) => Open(s, vm)
    case AssignOp(vm, m) => var (s', c) := AssignMac(s, vm, m); (s', Status(c))
    case TxOp(vm, frame) => var (s', c) := Tx(s, vm, frame, now); (s', Status(c))
    case PollOp(vm) => Poll(s, vm)
    case ReadOp(vm, slot, gen, dstLen) => Read(s, vm, slot, gen, dstLen)
    case ReleaseOp(vm, slot, gen) => ReleaseRx(s, vm, slot, gen)
    case AckOp(vm) => Ack(s, vm)
    case ExpireOp(timeout) => (Expire(s, now, timeout), Count(ExpiredCount(s, now, timeout)))
  }

  /** Ghost bookkeeping: the true birth tick of a slot that is taken now. */
  ghost function BornAfter(s: SwV, born: seq<nat>, e: Event): seq<nat> {
    var x := FirstFree(s.pool.slots);
    if e.op.TxOp? && TxRefusal(s, e.op.vm, e.op.frame).None? && x < |born| then born[x := e.now] else born
  }

  // ---------------------------------------------------------------- the view

  ghost function CopyOf(p: PoolV, born: seq<nat>, d: Desc): Copy
    requires d.slot < |p.slots| == |born|
  {
    var f := p.slots[d.slot];
    Copy(d.slot, d.gen, f.src, f.data[..f.len], born[d.slot])
  }

  ghost function Copies(p: PoolV, born: seq<nat>, q: seq<Desc>): (r: seq<Copy>)
    requires RingOk(p, born, q)
    ensures |r| == |q| && forall k :: 0 <= k < |q| ==> r[k] == CopyOf(p, born, q[k])
  {
    seq(|q|, k requires 0 <= k < |q| => CopyOf(p, born, q[k]))
  }

  ghost function PortOf(p: PoolV, born: seq<nat>, v: VnicV): Port
    requires RingOk(p, born, v.ring)
  {
    Port(v.open, AddressOf(v), Copies(p, born, v.ring))
  }

  ghost function Gens(p: PoolV): (r: seq<u16>)
    ensures |r| == |p.slots| && forall x :: 0 <= x < |r| ==> r[x] == p.slots[x].gen
  {
    seq(|p.slots|, x requires 0 <= x < |p.slots| => p.slots[x].gen)
  }

  ghost predicate Viewable(s: SwV, born: seq<nat>) {
    forall j :: 0 <= j < |s.vnics| ==> RingOk(s.pool, born, s.vnics[j].ring)
  }

  ghost function Ports(s: SwV, born: seq<nat>): (ps: seq<Port>)
    requires Viewable(s, born)
    ensures |ps| == |s.vnics|
    ensures forall j :: 0 <= j < |s.vnics| ==> ps[j] == PortOf(s.pool, born, s.vnics[j])
  {
    seq(|s.vnics|, j requires 0 <= j < |s.vnics| => PortOf(s.pool, born, s.vnics[j]))
  }

  ghost function View(s: SwV, born: seq<nat>): (n: Net)
    requires Viewable(s, born)
  {
    Net(Ports(s, born), s.flood, s.cap, Gens(s.pool), |s.fdb|)
  }

  lemma InvIsViewable(s: SwV, born: seq<nat>, now: nat)
    requires Inv(s, born, now)
    ensures Viewable(s, born)
  {
    forall j | 0 <= j < |s.vnics| ensures RingOk(s.pool, born, s.vnics[j].ring) {
      assert VnicOk(s, born, s.vnics[j]);
    }
  }

  // ---------------------------------------------------------------- one step

  ghost predicate Timely(s: SwV, born: seq<nat>, e: Event) {
    e.op.ExpireOp? && e.op.timeout > 0 ==> NoneAncient(s, born, e.now)
  }

  lemma LaterInv(s: SwV, born: seq<nat>, now: nat, now': nat)
    requires Inv(s, born, now) && now <= now'
    ensures Inv(s, born, now')
  {
    forall j | 0 <= j < |s.vnics| ensures VnicOk(s, born, s.vnics[j]) {}
  }

  /** Every operation keeps the invariant. */
  lemma StepKeepsInv(s: SwV, born: seq<nat>, now: nat, e: Event)
    requires Inv(s, born, now) && now <= e.now && Timely(s, born, e)
    ensures Inv(Step(s, e).0, BornAfter(s, born, e), e.now)
  {
    match e.op
    case OpenOp(vm) => LaterInv(s, born, now, e.now); OpenKeepsInv(s, born, e.now, vm);
    case AssignOp(vm, m) => LaterInv(s, born, now, e.now); AssignKeepsInv(s, born, e.now, vm, m);
    case TxOp(vm, frame) => TxKeepsInv(s, born, now, e.now, vm, frame);
    case ExpireOp(timeout) => ReapKeepsInv(s, born, now, e.now, timeout);
    case _ => LaterInv(s, born, now, e.now); ReceiveKeepsInv(s, born, e.now, e);
  }

  lemma ReapKeepsInv(s: SwV, born: seq<nat>, now: nat, now': nat, timeout: u32)
    requires Inv(s, born, now) && now <= now' && (timeout > 0 ==> NoneAncient(s, born, now'))
    ensures Inv(Expire(s, Tick(now'), timeout), born, now')
  {
    if timeout > 0 {
      ExpireShape(s, born, now, now', timeout);
      ExpireKeepsInv(s, Expire(s, Tick(now'), timeout), born, now, now', timeout);
    } else {
      LaterInv(s, born, now, now');
      assert Expire(s, Tick(now'), timeout) == s;
    }
  }

  lemma TxKeepsInv(s: SwV, born: seq<nat>, now: nat, now': nat, src: u32, frame: seq<u8>)
    requires Inv(s, born, now) && now <= now'
    ensures Inv(Tx(s, src, frame, Tick(now')).0, BornAfter(s, born, Event(now', TxOp(src, frame))), now')
  {
    LaterInv(s, born, now, now');
    if TxRefusal(s, src, frame).None? {
      var x := FirstFree(s.pool.slots);
      if x < |s.pool.slots| {
        TxShape(s, born, now, now', src, frame);
        var s' := Tx(s, src, frame, Tick(now')).0;
        StoreKeepsInv(s, s', born, now, now', x, s'.pool.slots[x], DescOf(x, s'.pool.slots[x]));
      } else {
        LearnIsNoop(s, born, now, src);
      }
    }
  }

  ghost predicate IsReceive(op: Op) {
    op.PollOp? || op.ReadOp? || op.ReleaseOp? || op.AckOp?
  }

  /** A receiver call changes nothing, or gives the front frame back. */
  lemma ReceiveShape(s: SwV, born: seq<nat>, now: nat, e: Event)
    requires Inv(s, born, now) && IsReceive(e.op)
    ensures var s' := Step(s, e).0;
            var vm := e.op.vm;
            if e.op.ReleaseOp? && vm < |s.vnics| && s.vnics[vm].open && s.vnics[vm].ring != [] &&
               s.vnics[vm].ring[0].slot == e.op.slot && s.vnics[vm].ring[0].gen == e.op.gen
            then ReleaseStep(s, s', vm) else s' == s
  {
    var vm := e.op.vm;
    if vm < |s.vnics| && s.vnics[vm].open {
      NothingStale(s, born, now, vm);
      assert VnicOk(s, born, s.vnics[vm]);
      assert s.vnics[vm := s.vnics[vm]] == s.vnics;
      if s.vnics[vm].ring != [] { ReleaseShape(s, born, now, vm); }
    }
  }

  lemma ReceiveKeepsInv(s: SwV, born: seq<nat>, now: nat, e: Event)
    requires Inv(s, born, now) && IsReceive(e.op)
    ensures Inv(Step(s, e).0, born, now)
  {
    ReceiveShape(s, born, now, e);
    var s' := Step(s, e).0;
    if s' != s { ReleaseKeepsInv(s, s', born, now, e.op.vm); }
  }

  /** The step seen as FIFOs is the step of the FIFO form. */
  ghost predicate ViewAgrees(s: SwV, born: seq<nat>, e: Event)
    requires Viewable(s, born) && Viewable(Step(s, e).0, BornAfter(s, born, e))
  {
    NetStep(View(s, born), e) == (View(Step(s, e).0, BornAfter(s, born, e)), Step(s, e).1)
  }

  /** Only flags and address of VM vm changed. */
  lemma FlagView(s: SwV, s': SwV, born: seq<nat>, vm: nat)
    requires Viewable(s, born) && Viewable(s', born) && vm < |s.vnics| == |s'.vnics|
    requires s' == s.(vnics := s.vnics[vm := s'.vnics[vm]], fdb := s'.fdb) && |s'.fdb| == |s.fdb|
    requires s'.vnics[vm].ring == s.vnics[vm].ring
    ensures var ps := View(s, born).ports;
            View(s', born) == View(s, born).(ports := ps[vm :=
              ps[vm].(open := s'.vnics[vm].open, mac := AddressOf(s'.vnics[vm]))])
  {
    assert Copies(s'.pool, born, s'.vnics[vm].ring) == Copies(s.pool, born, s.vnics[vm].ring);
    assert View(s', born).ports == View(s, born).ports[vm := View(s', born).ports[vm]];
  }

  lemma OpenAgrees(s: SwV, born: seq<nat>, e: Event)
    requires e.op.OpenOp? && Viewable(s, born) && Viewable(Step(s, e).0, born)
    ensures ViewAgrees(s, born, e)
  {
    if e.op.vm < |s.vnics| { FlagView(s, Step(s, e).0, born, e.op.vm); }
  }

  lemma OwnedIsOwns(s: SwV, born: seq<nat>, m: Mac)
    requires Viewable(s, born)
    ensures Owned(View(s, born), m) <==> exists j :: 0 <= j < |s.vnics| && OwnsMac(s.vnics, j, m)
  {
    var n := View(s, born);
    forall j | 0 <= j < |s.vnics| ensures n.ports[j].mac == Some(m) <==> OwnsMac(s.vnics, j, m) {}
  }

  lemma OwnersAreAddressed(s: SwV, born: seq<nat>, now: nat)
    requires Inv(s, born, now) && Viewable(s, born)
    ensures |Owners(View(s, born))| >= View(s, born).table <==> FdbFull(s)
  {
    FullMeansAllOwned(s, born, now);
    SameOwners(s, born);
  }

  lemma SameOwners(s: SwV, born: seq<nat>)
    requires Viewable(s, born)
    ensures Owners(View(s, born)) == Addressed(s.vnics)
  {
    var n := View(s, born);
    forall j: nat ensures j in Owners(n) <==> j in Addressed(s.vnics) {
      if j < |s.vnics| { assert n.ports[j].mac.Some? <==> s.vnics[j].macSet; }
    }
  }

  lemma AssignAgrees(s: SwV, born: seq<nat>, now: nat, e: Event)
    requires Inv(s, born, now)
    requires e.op.AssignOp? && Viewable(s, born) && Viewable(Step(s, e).0, born)
    ensures ViewAgrees(s, born, e)
  {
    var vm, m := e.op.vm, e.op.mac;
    if vm < |s.vnics| && s.vnics[vm].open && IsLocalUnicast(m) {
      if !s.vnics[vm].macSet {
        NewAddressAgrees(s, born, now, e);
      } else if s.vnics[vm].mac == m {
        AssignShape(s.vnics, s.fdb, vm, m);
        assert s.vnics[vm := s.vnics[vm]] == s.vnics;
      }
    }
  }

  lemma NewAddressAgrees(s: SwV, born: seq<nat>, now: nat, e: Event)
    requires Inv(s, born, now)
    requires e.op.AssignOp? && Viewable(s, born) && Viewable(Step(s, e).0, born)
    requires e.op.vm < |s.vnics| && s.vnics[e.op.vm].open && !s.vnics[e.op.vm].macSet && IsLocalUnicast(e.op.mac)
    ensures ViewAgrees(s, born, e)
  {
    OwnedIsOwns(s, born, e.op.mac);
    OwnersAreAddressed(s, born, now);
    AssignShape(s.vnics, s.fdb, e.op.vm, e.op.mac);
    if AssignMac(s, e.op.vm, e.op.mac).1 == Ok {
      FlagView(s, Step(s, e).0, born, e.op.vm);
    } else {
      assert Step(s, e).0 == s;
    }
  }

  /** The FDB range of the code and the address rule of the FIFO form choose the same receivers. */
  lemma WantsIsTakes(s: SwV, born: seq<nat>, now: nat, src: u32, dst: Mac, j: nat)
    requires Inv(s, born, now) && Viewable(s, born) && j < |s.vnics|
    ensures var (lo, hi) := Reach(s, src, dst);
            Wants(View(s, born), src, dst, j) <==> Takes(s.vnics, s.cap, src, lo, hi, j)
  {
    OwnedIsOwns(s, born, dst);
    var e := F.FindMac(s.fdb, dst);
    if e < |s.fdb| {
      assert EntryAgrees(s.vnics, s.fdb[e]);
      assert OwnsMac(s.vnics, s.fdb[e].guest, dst);
      FindsPinned(s.vnics, s.fdb, s.fdb[e].guest);
      if OwnsMac(s.vnics, j, dst) { FindsPinned(s.vnics, s.fdb, j); }
    } else {
      forall i | 0 <= i < |s.vnics| ensures !OwnsMac(s.vnics, i, dst) {
        if OwnsMac(s.vnics, i, dst) { FindsPinned(s.vnics, s.fdb, i); assert false; }
      }
    }
  }

  lemma {:induction false} WantedIsTakers(s: SwV, born: seq<nat>, now: nat, src: u32, dst: Mac, j: nat)
    requires Inv(s, born, now) && Viewable(s, born) && j <= |s.vnics|
    ensures var (lo, hi) := Reach(s, src, dst);
            Wanted(View(s, born), src, dst, j) == Takers(s.vnics, s.cap, src, lo, hi, j)
  {
    if j > 0 {
      WantedIsTakers(s, born, now, src, dst, j - 1);
      WantsIsTakes(s, born, now, src, dst, j - 1);
    }
  }

  lemma ReceivesIsGets(s: SwV, born: seq<nat>, now: nat, src: u32, dst: Mac, j: nat)
    requires Inv(s, born, now) && Viewable(s, born) && j < |s.vnics|
    ensures var (lo, hi) := Reach(s, src, dst);
            Receives(View(s, born), src, dst, j) <==> Gets(s.vnics, s.cap, src, lo, hi, MAX_COPIES, j)
  {
    WantsIsTakes(s, born, now, src, dst, j);
    WantedIsTakers(s, born, now, src, dst, j);
  }

  /** Storing a new frame in a free slot does not disturb what is queued, and shows up as one
      more copy exactly where a descriptor was pushed. */
  lemma StoredPort(s: SwV, s': SwV, born: seq<nat>, now: nat, now': nat, x: nat, f: Frame, d: Desc, j: nat)
    requires Inv(s, born, now) && now <= now' && StoreStep(s, s', now', x, f, d) && j < |s.vnics|
    requires Viewable(s, born) && Viewable(s', born[x := now'])
    ensures var p, p' := PortOf(s.pool, born, s.vnics[j]), PortOf(s'.pool, born[x := now'], s'.vnics[j]);
            var c := Copy(d.slot, d.gen, f.src, f.data[..f.len], now');
            p' == if s'.vnics[j] == s.vnics[j] then p else p.(q := p.q + [c])
  {
    FreeSlotUnheld(s, born, now, x);
    var q := s.vnics[j].ring;
    assert forall k :: 0 <= k < |q| ==> q[k].slot != x;
    assert VnicOk(s, born, s.vnics[j]);
    assert Copies(s'.pool, born[x := now'], s'.vnics[j].ring)[..|q|] == Copies(s.pool, born, q);
  }

  /** A slot is in use if and only if some queued copy has its number. */
  lemma InUseIsQueued(s: SwV, born: seq<nat>, now: nat, x: nat)
    requires Inv(s, born, now) && Viewable(s, born) && x < |s.pool.slots|
    ensures s.pool.slots[x].refcnt != 0 <==> InUse(View(s, born), x)
  {
    var n := View(s, born);
    RefCountZero(s.vnics, x);
    forall j | 0 <= j < |s.vnics|
      ensures Has(s.vnics[j].ring, x) <==> exists k | 0 <= k < |n.ports[j].q| :: n.ports[j].q[k].slot == x
    {
      var q := s.vnics[j].ring;
      assert forall k :: 0 <= k < |q| ==> n.ports[j].q[k].slot == q[k].slot;
    }
  }

  /** The first free slot is the lowest unused number, and none is free when all are in use. */
  lemma {:induction false} UnusedIsFirstFree(s: SwV, born: seq<nat>, now: nat, x: nat)
    requires Inv(s, born, now) && Viewable(s, born) && x <= |s.pool.slots|
    ensures Unused(View(s, born), x) == FirstFree(s.pool.slots, x)
    decreases |s.pool.slots| - x
  {
    if x < |s.pool.slots| {
      InUseIsQueued(s, born, now, x);
      UnusedIsFirstFree(s, born, now, x + 1);
    }
  }

  /** What a stored and handed-out frame leaves behind; f is the frame in its slot x. */
  ghost predicate TxEffect(s: SwV, s': SwV, c: Code, now': nat, src: u32, frame: seq<u8>, x: nat) {
    && x < |s.pool.slots| == |s'.pool.slots| <= 0xFFFF && FRAME_MIN <= |frame| <= FRAME_MAX
    && var f, dst := s'.pool.slots[x], MacAt(frame, 0);
    var d, (lo, hi) := DescOf(x, f), Reach(s, src, dst);
    && StoreStep(s, s', now', x, f, d)
    && f.len == |frame| && f.src == src && f.data[..f.len] == frame
    && f.gen == Inc16(s.pool.slots[x].gen)
    && HandedOut(s.vnics, s'.vnics, d, s.cap, lo, hi, MAX_COPIES)
    && c == Verdict(exists j :: Gets(s.vnics, s.cap, src, lo, hi, MAX_COPIES, j), dst)
  }

  lemma TxHasEffect(s: SwV, born: seq<nat>, now: nat, now': nat, src: u32, frame: seq<u8>)
    requires Inv(s, born, now) && now <= now'
    requires TxRefusal(s, src, frame).None? && FirstFree(s.pool.slots) < |s.pool.slots|
    ensures var (s', c) := Tx(s, src, frame, Tick(now'));
            TxEffect(s, s', c, now', src, frame, FirstFree(s.pool.slots))
  {
    TxShape(s, born, now, now', src, frame);
    TxGen(s, born, now, Tick(now'), src, frame);
  }

  /** The generation the frame gets. */
  lemma TxGen(s: SwV, born: seq<nat>, now: nat, tick: u32, src: u32, frame: seq<u8>)
    requires Inv(s, born, now)
    requires TxRefusal(s, src, frame).None? && FirstFree(s.pool.slots) < |s.pool.slots|
    ensures var x := FirstFree(s.pool.slots);
            && |Tx(s, src, frame, tick).0.pool.slots| == |s.pool.slots|
            && Tx(s, src, frame, tick).0.pool.slots[x].gen == Inc16(s.pool.slots[x].gen)
  {
    TxIs(s, born, now, tick, src, frame);
  }

  lemma StoredGens(s: SwV, s': SwV, now': nat, x: nat, f: Frame, d: Desc)
    requires StoreStep(s, s', now', x, f, d)
    ensures Gens(s'.pool) == Gens(s.pool)[x := f.gen]
  {}

  /** The copy in slot x is the one the queues hand out. */
  lemma StoredCopy(s: SwV, born: seq<nat>, now': nat, src: u32, frame: seq<u8>, x: nat, f: Frame)
    requires Viewable(s, born) && Admits(View(s, born), src, frame) && Unused(View(s, born)) == x < |s.pool.slots| <= 0xFFFF
    requires f.len == |frame| && f.src == src && f.data[..f.len] == frame && f.gen == Inc16(s.pool.slots[x].gen)
    ensures NextCopy(View(s, born), src, frame, now') ==
            Copy(DescOf(x, f).slot, DescOf(x, f).gen, f.src, f.data[..f.len], now')
  {}

  /** A stored and handed-out frame is what the queues do, whatever the code is that did it. */
  lemma StoredTxAgrees(s: SwV, s': SwV, c: Code, born: seq<nat>, now: nat, now': nat, src: u32, frame: seq<u8>, x: nat)
    requires Inv(s, born, now) && now <= now' && x < |born| && Viewable(s, born) && Viewable(s', born[x := now'])
    requires TxEffect(s, s', c, now', src, frame, x)
    requires Admits(View(s, born), src, frame) && Unused(View(s, born)) == x
    ensures NetTx(View(s, born), src, frame, now') == (View(s', born[x := now']), c)
  {
    var f, dst := s'.pool.slots[x], MacAt(frame, 0);
    StoredCopy(s, born, now', src, frame, x, f);
    StoredPorts(s, s', born, now, now', src, dst, x, f, DescOf(x, f), NextCopy(View(s, born), src, frame, now'));
    StoredGens(s, s', now', x, f, DescOf(x, f));
    SomeoneReceives(s, born, now, src, dst);
  }

  lemma TxAdmittedAgrees(s: SwV, born: seq<nat>, now: nat, now': nat, src: u32, frame: seq<u8>)
    requires Inv(s, born, now) && now <= now' && Viewable(s, born)
    requires TxRefusal(s, src, frame).None? && FirstFree(s.pool.slots) < |s.pool.slots|
    requires NetRefusal(View(s, born), src, frame).None?
    ensures var (s', c) := Tx(s, src, frame, Tick(now'));
            var born' := born[FirstFree(s.pool.slots) := now'];
            Viewable(s', born') ==> NetTx(View(s, born), src, frame, now') == (View(s', born'), c)
  {
    var x := FirstFree(s.pool.slots);
    var (s', c) := Tx(s, src, frame, Tick(now'));
    TxHasEffect(s, born, now, now', src, frame);
    UnusedIsFirstFree(s, born, now, 0);
    if Viewable(s', born[x := now']) { StoredTxAgrees(s, s', c, born, now, now', src, frame, x); }
  }

  lemma TxAgrees(s: SwV, born: seq<nat>, now: nat, e: Event)
    requires Inv(s, born, now) && now <= e.now && e.op.TxOp?
    requires Viewable(s, born) && Viewable(Step(s, e).0, BornAfter(s, born, e))
    ensures ViewAgrees(s, born, e)
  {
    var src, frame := e.op.vm, e.op.frame;
    assert NetRefusal(View(s, born), src, frame) == TxRefusal(s, src, frame);
    if TxRefusal(s, src, frame).None? {
      if FirstFree(s.pool.slots) < |s.pool.slots| {
        TxAdmittedAgrees(s, born, now, e.now, src, frame);
      } else {
        UnusedIsFirstFree(s, born, now, 0);
        LearnIsNoop(s, born, now, src);
      }
    }
  }

  lemma SomeoneReceives(s: SwV, born: seq<nat>, now: nat, src: u32, dst: Mac)
    requires Inv(s, born, now) && Viewable(s, born)
    ensures var (lo, hi) := Reach(s, src, dst);
            (exists j | 0 <= j < |s.vnics| :: Receives(View(s, born), src, dst, j)) <==>
            (exists j :: Gets(s.vnics, s.cap, src, lo, hi, MAX_COPIES, j))
  {
    var (lo, hi) := Reach(s, src, dst);
    forall j | 0 <= j < |s.vnics|
      ensures Receives(View(s, born), src, dst, j) <==> Gets(s.vnics, s.cap, src, lo, hi, MAX_COPIES, j)
    {
      ReceivesIsGets(s, born, now, src, dst, j);
    }
    if j :| Gets(s.vnics, s.cap, src, lo, hi, MAX_COPIES, j) {
      assert Receives(View(s, born), src, dst, j);
    }
  }

  lemma StoredPorts(s: SwV, s': SwV, born: seq<nat>, now: nat, now': nat, src: u32, dst: Mac,
                    x: nat, f: Frame, d: Desc, c: Copy)
    requires Inv(s, born, now) && now <= now' && StoreStep(s, s', now', x, f, d)
    requires Viewable(s, born) && Viewable(s', born[x := now'])
    requires var (lo, hi) := Reach(s, src, dst); HandedOut(s.vnics, s'.vnics, d, s.cap, lo, hi, MAX_COPIES) && d.src == src
    requires c == Copy(d.slot, d.gen, f.src, f.data[..f.len], now')
    ensures View(s', born[x := now']).ports == Enqueued(View(s, born), src, dst, c)
  {
    var ps := View(s', born[x := now']).ports;
    forall j | 0 <= j < |s.vnics| ensures ps[j] == Enqueued(View(s, born), src, dst, c)[j] {
      ReceivesIsGets(s, born, now, src, dst, j);
      StoredPort(s, s', born, now, now', x, f, d, j);
      AcceptedDiffers(s.vnics[j], d);
    }
  }

  lemma AcceptedDiffers(v: VnicV, d: Desc)
    ensures Accepted(v, d) != v
  {
    assert |Accepted(v, d).ring| == |v.ring| + 1;
  }

  lemma ReleasedView(s: SwV, s': SwV, born: seq<nat>, vm: nat)
    requires Viewable(s, born) && Viewable(s', born) && vm < |s.vnics| && ReleaseStep(s, s', vm)
    ensures var ps := View(s, born).ports;
            View(s', born) == View(s, born).(ports := ps[vm := ps[vm].(q := ps[vm].q[1..])])
  {
    var ps, ps' := View(s, born).ports, View(s', born).ports;
    forall j | 0 <= j < |ps| ensures ps'[j] == ps[vm := ps[vm].(q := ps[vm].q[1..])][j] {
      assert ps'[j].q == if j == vm then ps[j].q[1..] else ps[j].q;
    }
    assert ps' == ps[vm := ps[vm].(q := ps[vm].q[1..])];
    assert Gens(s'.pool) == Gens(s.pool);
  }

  lemma ReceiveAgrees(s: SwV, born: seq<nat>, now: nat, e: Event)
    requires Inv(s, born, now) && IsReceive(e.op)
    requires Viewable(s, born) && Viewable(Step(s, e).0, born)
    ensures ViewAgrees(s, born, e)
  {
    var vm := e.op.vm;
    if vm < |s.vnics| && s.vnics[vm].open {
      ReceiveShape(s, born, now, e);
      NothingStale(s, born, now, vm);
      assert VnicOk(s, born, s.vnics[vm]);
      var q := s.vnics[vm].ring;
      assert q != [] ==> View(s, born).ports[vm].q[0] == CopyOf(s.pool, born, q[0]);
      assert View(s, born).ports[vm].q == [] <==> q == [];
      if Step(s, e).0 != s {
        ReleaseShape(s, born, now, vm);
        ReleasedView(s, Step(s, e).0, born, vm);
      }
    }
  }

  lemma {:induction false} YoungSplit(q: seq<Copy>, n: nat, now: nat, timeout: u32)
    requires n <= |q|
    requires forall k :: 0 <= k < |q| ==> (now - q[k].birth < timeout <==> k >= n)
    ensures Young(q, now, timeout) == q[n..]
  {
    if n > 0 {
      YoungSplit(q[1..], n - 1, now, timeout);
    } else if q != [] {
      YoungSplit(q[1..], 0, now, timeout);
      assert q == [q[0]] + q[1..];
    }
  }

  /** Births are ordered, so the young copies are what is left after the old prefix. */
  lemma YoungIsTail(p: PoolV, born: seq<nat>, q: seq<Desc>, now: nat, timeout: u32)
    requires RingOk(p, born, q)
    ensures Young(Copies(p, born, q), now, timeout) == Copies(p, born, q)[OldPrefix(q, born, now, timeout)..]
  {
    YoungSplit(Copies(p, born, q), OldPrefix(q, born, now, timeout), now, timeout);
  }

  lemma ShortenedPort(p: PoolV, p': PoolV, born: seq<nat>, now: nat, timeout: u32, v: VnicV)
    requires RingOk(p, born, v.ring) && ReapsOld(p, p', born, now, timeout)
    ensures RingOk(p', born, Shortened(v, born, now, timeout).ring)
    ensures PortOf(p', born, Shortened(v, born, now, timeout)) ==
            PortOf(p, born, v).(q := Young(PortOf(p, born, v).q, now, timeout))
  {
    var n := OldPrefix(v.ring, born, now, timeout);
    RingOkTail(p, p', born, now, timeout, v.ring);
    YoungIsTail(p, born, v.ring, now, timeout);
    assert Copies(p', born, v.ring[n..]) == Copies(p, born, v.ring)[n..];
  }

  lemma ExpiredView(s: SwV, s': SwV, born: seq<nat>, now: nat, timeout: u32)
    requires Viewable(s, born) && Viewable(s', born) && ExpireStep(s, s', born, now, timeout) && timeout > 0
    ensures View(s', born) == NetExpire(View(s, born), now, timeout)
  {
    var ps, ps' := NetExpire(View(s, born), now, timeout).ports, View(s', born).ports;
    forall j | 0 <= j < |s.vnics| ensures ps'[j] == ps[j] {
      ShortenedPort(s.pool, s'.pool, born, now, timeout, s.vnics[j]);
    }
    assert ps' == ps;
    assert Gens(s'.pool) == Gens(s.pool);
  }

  /** The slots that look old on 32 bits. */
  ghost function AgedSlots(slots: seq<Frame>, now: u32, timeout: u32): set<nat> {
    set x: nat | x < |slots| && Aged(slots[x], now, timeout)
  }

  lemma {:induction false} AgedSlotsSize(slots: seq<Frame>, now: u32, timeout: u32)
    ensures |AgedSlots(slots, now, timeout)| == CountAged(slots, now, timeout)
  {
    if slots == [] {
      assert AgedSlots(slots, now, timeout) == {};
    } else {
      var n := |slots| - 1;
      AgedSlotsSize(slots[..n], now, timeout);
      assert AgedSlots(slots, now, timeout) ==
        AgedSlots(slots[..n], now, timeout) + if Aged(slots[n], now, timeout) then {n as nat} else {};
    }
  }

  /** A slot looks old on 32 bits if and only if a queued copy of its number is. */
  lemma AgedIsOverdue(s: SwV, born: seq<nat>, now: nat, now': nat, timeout: u32, x: nat)
    requires Inv(s, born, now) && Viewable(s, born) && now <= now' && NoneAncient(s, born, now')
    requires x < |s.pool.slots|
    ensures Aged(s.pool.slots[x], Tick(now'), timeout) <==> Overdue(View(s, born), now', timeout, x)
  {
    var n := View(s, born);
    InUseIsQueued(s, born, now, x);
    forall j, k | 0 <= j < |n.ports| && 0 <= k < |n.ports[j].q| && n.ports[j].q[k].slot == x
      ensures n.ports[j].q[k].birth == born[x]
    {
      assert n.ports[j].q[k] == CopyOf(s.pool, born, s.vnics[j].ring[k]);
    }
    if s.pool.slots[x].refcnt != 0 { ModularAge(now', born[x]); }
  }

  /** The number of slots the code frees is the number of distinct frames among the copies that leave. */
  lemma ExpiredCountAgrees(s: SwV, born: seq<nat>, now: nat, now': nat, timeout: u32)
    requires Inv(s, born, now) && Viewable(s, born) && now <= now' && (timeout > 0 ==> NoneAncient(s, born, now'))
    ensures ExpiredCount(s, Tick(now'), timeout) == |Expiring(View(s, born), now', timeout)|
  {
    if timeout > 0 {
      AgedSlotsSize(s.pool.slots, Tick(now'), timeout);
      forall x: nat | x < |s.pool.slots|
        ensures Aged(s.pool.slots[x], Tick(now'), timeout) <==> Overdue(View(s, born), now', timeout, x)
      {
        AgedIsOverdue(s, born, now, now', timeout, x);
      }
      assert AgedSlots(s.pool.slots, Tick(now'), timeout) == Expiring(View(s, born), now', timeout);
    }
  }

  lemma ExpiryAgrees(s: SwV, born: seq<nat>, now: nat, now': nat, timeout: u32)
    requires Inv(s, born, now) && now <= now' && (timeout > 0 ==> NoneAncient(s, born, now'))
    requires Viewable(s, born) && Viewable(Expire(s, Tick(now'), timeout), born)
    ensures View(Expire(s, Tick(now'), timeout), born) == NetExpire(View(s, born), now', timeout)
  {
    if timeout > 0 {
      ExpireShape(s, born, now, now', timeout);
      ExpiredView(s, Expire(s, Tick(now'), timeout), born, now', timeout);
    } else {
      assert Expire(s, Tick(now'), timeout) == s;
    }
  }

  lemma ExpireAgrees(s: SwV, born: seq<nat>, now: nat, e: Event)
    requires Inv(s, born, now) && now <= e.now && e.op.ExpireOp? && Timely(s, born, e)
    requires Viewable(s, born) && Viewable(Step(s, e).0, born)
    ensures ViewAgrees(s, born, e)
  {
    ExpiryAgrees(s, born, now, e.now, e.op.timeout);
    ExpiredCountAgrees(s, born, now, e.now, e.op.timeout);
  }

  /** One step of the switch is one step of the FIFOs, and keeps the invariant. */
  lemma StepRefines(s: SwV, born: seq<nat>, now: nat, e: Event)
    requires Inv(s, born, now) && now <= e.now && Timely(s, born, e)
    ensures Inv(Step(s, e).0, BornAfter(s, born, e), e.now)
    ensures Viewable(s, born) && Viewable(Step(s, e).0, BornAfter(s, born, e))
    ensures NetStep(View(s, born), e) == (View(Step(s, e).0, BornAfter(s, born, e)), Step(s, e).1)
  {
    StepKeepsInv(s, born, now, e);
    InvIsViewable(s, born, now);
    InvIsViewable(Step(s, e).0, BornAfter(s, born, e), e.now);
    match e.op
    case OpenOp(_) => OpenAgrees(s, born, e);
    case AssignOp(_, _) => AssignAgrees(s, born, now, e);
    case TxOp(_, _) => TxAgrees(s, born, now, e);
    case ExpireOp(_) => ExpireAgrees(s, born, now, e);
    case _ => ReceiveAgrees(s, born, now, e);
  }
}
