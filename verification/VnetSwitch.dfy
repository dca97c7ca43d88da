/** The virtual Ethernet switch (src/vnet/vnet_switch.c): a specification of every public
    operation on plain values, and the class over rings, pool and FDB that meets it. */
module VnetSwitch {
  import opened Base
  import opened VnetCodes
  import opened VnetMac
  import opened VnetPool
  import opened VnetRing
  import F = VnetFdb

  const FRAME_MIN := 14

  datatype VnicV = VnicV(open: bool, macSet: bool, mac: Mac, irq: bool, ring: seq<Desc>)

  /** The switch as a value; `cap` is the capacity every ring was given. */
  datatype SwV = SwV(vnics: seq<VnicV>, pool: PoolV, fdb: seq<F.Entry>, flood: bool, cap: nat)

  const ABI_VERSION := 1
  const RX_IRQ := 130

  /** vnet_info_t; the features word is always 0. */
  datatype VnetInfo = VnetInfo(abi: u32, features: u32, mtu: u16, rxIrq: int, mac: Option<Mac>)

  function InfoFor(mac: Option<Mac>): VnetInfo {
    VnetInfo(ABI_VERSION, 0, FRAME_MAX, RX_IRQ, mac)
  }

  /** What a call answers. */
  datatype Reply =
    | Status(code: Code)
    | Meta(slot: u16, gen: u16, len: u16, src: u32)
    | Bytes(bytes: seq<u8>)
    | Pending(bit: bool)
    | Info(info: VnetInfo)
    | Count(n: nat)

  // ---------------------------------------------------------------- specification

  function Init(n: nat, frames: nat, fdbCap: nat, ringCap: nat, flood: bool): SwV {
    SwV(seq(n, i => VnicV(false, false, ZERO_MAC, false, [])),
        InitPool(frames), F.InitEntries(fdbCap), flood, ringCap)
  }

  function Live(p: PoolV, d: Desc): bool {
    IsLive(p, d.slot, d.gen)
  }

  /** skip_stale_head: drop descriptors from the front until a live one shows. */
  function SkipStale(p: PoolV, q: seq<Desc>): seq<Desc> {
    if q == [] || Live(p, q[0]) then q else SkipStale(p, q[1..])
  }

  function WithVnic(s: SwV, vm: nat, v: VnicV): SwV
    requires vm < |s.vnics|
  {
    s.(vnics := s.vnics[vm := v])
  }

  function AddressOf(v: VnicV): Option<Mac> {
    if v.macSet then Some(v.mac) else None
  }

  /** Opening tells the build's constants and the address, if one is set. */
  function Open(s: SwV, vm: u32): (SwV, Reply) {
    if vm >= |s.vnics| then (s, Status(BadArg))
    else (WithVnic(s, vm, s.vnics[vm].(open := true)), Info(InfoFor(AddressOf(s.vnics[vm]))))
  }

  function AssignMac(s: SwV, vm: u32, m: Mac): (SwV, Code) {
    if vm >= |s.vnics| then (s, BadArg)
    else
      var v := s.vnics[vm];
      if !v.open then (s, NotOpen)
      else if !IsLocalUnicast(m) then (s, InvalMac)
      else if v.macSet && v.mac != m then (s, DupMac)
      else
        var (fdb, c) := F.Assign(s.fdb, vm, m);
        if c != Ok then (s.(fdb := fdb), c)
        else (WithVnic(s.(fdb := fdb), vm, v.(mac := m, macSet := true)), Ok)
  }

  /** How one delivery of a frame whose reference count is rc ends. */
  function DeliveryCode(v: VnicV, rc: u16, cap: nat): Code {
    if !v.open then DroppedPolicy
    else if |v.ring| >= cap then QueueFull
    else if rc == 0xFFFF then NotReady
    else Ok
  }

  /** A closed VM, a full ring and a full count refuse a delivery, in this order. */
  lemma DeliveryAnswers(v: VnicV, rc: u16, cap: nat)
    ensures var c := DeliveryCode(v, rc, cap);
            && (c == DroppedPolicy <==> !v.open)
            && (c == QueueFull <==> v.open && |v.ring| >= cap)
            && (c == NotReady <==> v.open && |v.ring| < cap && rc == 65535)
            && (c == Ok <==> v.open && |v.ring| < cap && rc < 65535)
  {}

  predicate Accepts(v: VnicV, rc: u16, cap: nat) {
    DeliveryCode(v, rc, cap) == Ok
  }

  function Accepted(v: VnicV, d: Desc): VnicV {
    v.(ring := v.ring + [d], irq := true)
  }

  /** try_deliver_one over the VMs lo .. hi-1 other than the sender: push, then take a reference.
      `rc` is the reference count of the frame; a push whose reference is refused is undone. */
  function Deliver(vs: seq<VnicV>, d: Desc, lo: nat, hi: nat, rc: u16, cap: nat): (r: (seq<VnicV>, u16))
    requires lo <= hi <= |vs|
    ensures |r.0| == |vs| && rc <= r.1 <= rc + (hi - lo)
    decreases hi - lo
  {
    if lo == hi then (vs, rc)
    else if lo != d.src && Accepts(vs[lo], rc, cap) then
      Deliver(vs[lo := Accepted(vs[lo], d)], d, lo + 1, hi, rc + 1, cap)
    else Deliver(vs, d, lo + 1, hi, rc, cap)
  }

  /** The VMs a frame for `dst` is offered to, as an index range (the sender is skipped inside). */
  function Range(s: SwV, src: u32, dst: Mac): (r: (nat, nat))
    ensures r.0 <= r.1 <= |s.vnics|
  {
    if IsMulticast(dst) then (0, |s.vnics|)
    else
      var v := F.Lookup(s.fdb, dst);
      if v != F.NO_VM && v != src then if v < |s.vnics| then (v, v + 1) else (0, 0)
      else if v == F.NO_VM && s.flood then (0, |s.vnics|)
      else (0, 0)
  }

  /** The checks made before a slot is taken; None when the frame may go on. */
  function TxRefusal(s: SwV, src: u32, frame: seq<u8>): Option<Code> {
    if src >= |s.vnics| then Some(BadArg)
    else
      var v := s.vnics[src];
      if !v.open then Some(NotOpen)
      else if !v.macSet then Some(NoMac)
      else if |frame| < FRAME_MIN || |frame| > FRAME_MAX then Some(FrameLen)
      else
        var m := MacAt(frame, 6);
        if m == ZERO_MAC || IsMulticast(m) then Some(Malformed)
        else if m != v.mac then Some(Spoof)
        else None
  }

  /** The frame sits in slot d.slot with one scratch reference: hand out copies, drop the scratch. */
  function TxOut(s: SwV, d: Desc, dst: Mac): (SwV, Code)
    requires d.slot < |s.pool.slots|
  {
    if dst == ZERO_MAC then (s.(pool := Release(s.pool, d.slot, d.gen).0), Malformed)
    else
      var (lo, hi) := Range(s, d.src, dst);
      var (vs, rc) := Deliver(s.vnics, d, lo, hi, 1, s.cap);
      (s.(vnics := vs, pool := Release(WithRefs(s.pool, d.slot, rc), d.slot, d.gen).0),
       if rc > 1 then Ok else if IsMulticast(dst) then DroppedPolicy else DroppedUnknown)
  }

  function Tx(s: SwV, src: u32, frame: seq<u8>, now: u32): (SwV, Code) {
    var refusal := TxRefusal(s, src, frame);
    if refusal.Some? then (s, refusal.value)
    else
      var s1 := s.(fdb := F.Learn(s.fdb, src, MacAt(frame, 6)).0);
      var x := FirstFree(s.pool.slots);
      if x >= |s.pool.slots| || x >= BAD_SLOT then (s1, PoolFull)
      else
        var p := Filled(Taken(s.pool, x, now), x, frame, src);
        TxOut(s1.(pool := p), Desc(x, p.slots[x].gen, |frame|, src), MacAt(frame, 0))
  }

  /** Common preamble of the receiver calls, after which the head (if any) is live. */
  function Skipped(s: SwV, vm: nat): SwV
    requires vm < |s.vnics|
  {
    WithVnic(s, vm, s.vnics[vm].(ring := SkipStale(s.pool, s.vnics[vm].ring)))
  }

  function WithIrq(s: SwV, vm: nat, b: bool): SwV
    requires vm < |s.vnics|
  {
    WithVnic(s, vm, s.vnics[vm].(irq := b))
  }

  function Poll(s: SwV, vm: u32): (SwV, Reply) {
    if vm >= |s.vnics| then (s, Status(BadArg))
    else if !s.vnics[vm].open then (s, Status(NotOpen))
    else
      var s1 := Skipped(s, vm);
      var q := s1.vnics[vm].ring;
      if q == [] then (WithIrq(s1, vm, false), Status(Empty))
      else (s1, Meta(q[0].slot, q[0].gen, q[0].len, q[0].src))
  }

  function Read(s: SwV, vm: u32, slot: u16, gen: u16, dstLen: u16): (SwV, Reply) {
    if vm >= |s.vnics| then (s, Status(BadArg))
    else if !s.vnics[vm].open then (s, Status(NotOpen))
    else
      var s1 := Skipped(s, vm);
      var q := s1.vnics[vm].ring;
      if q == [] then (s1, Status(Empty))
      else if q[0].slot != slot || q[0].gen != gen then (s1, Status(NotOwner))
      else if !IsLive(s1.pool, slot, gen) then (s1, Status(StaleCookie))
      else
        var f := s1.pool.slots[slot];
        if dstLen < f.len then (s1, Status(BadArg))
        else (s1, Bytes(f.data[..f.len]))
  }

  function ReleaseRx(s: SwV, vm: u32, slot: u16, gen: u16): (SwV, Reply) {
    if vm >= |s.vnics| then (s, Status(BadArg))
    else if !s.vnics[vm].open then (s, Status(NotOpen))
    else
      var s1 := Skipped(s, vm);
      var v := s1.vnics[vm];
      if v.ring == [] then (s1, Status(Empty))
      else if v.ring[0].slot != slot || v.ring[0].gen != gen then (s1, Status(NotOwner))
      else
        var (p, r) := Release(s1.pool, slot, gen);
        var s2 := WithVnic(s1, vm, v.(ring := v.ring[1..])).(pool := p);
        if r.Refused? then (s2, Status(r.code))
        else (if v.ring[1..] == [] then WithIrq(s2, vm, false) else s2, Status(Ok))
  }

  function Ack(s: SwV, vm: u32): (SwV, Reply) {
    if vm >= |s.vnics| then (s, Status(BadArg))
    else if !s.vnics[vm].open then (s, Status(NotOpen))
    else
      var s1 := Skipped(s, vm);
      var b := s1.vnics[vm].ring != [];
      (WithIrq(s1, vm, b), Pending(b))
  }

  function Cleared(p: PoolV, v: VnicV): VnicV {
    var q := SkipStale(p, v.ring);
    v.(ring := q, irq := v.irq && q != [])
  }

  function Expire(s: SwV, now: u32, timeout: u32): SwV {
    var p := DropExpired(s.pool, now, timeout);
    if timeout == 0 || CountAged(s.pool.slots, now, timeout) == 0 then s.(pool := p)
    else s.(pool := p, vnics := seq(|s.vnics|, i requires 0 <= i < |s.vnics| => Cleared(p, s.vnics[i])))
  }

  /** The number of slots that expiry frees. */
  function ExpiredCount(s: SwV, now: u32, timeout: u32): nat {
    if timeout == 0 then 0 else CountAged(s.pool.slots, now, timeout)
  }

  /** A delivery loop over lo .. hi-1 that started in s0 has reached VM i with n copies made. */
  ghost predicate Delivering(s0: SwV, s: SwV, d: Desc, lo: nat, i: nat, hi: nat, n: nat)
    requires lo <= i <= hi <= |s0.vnics| == |s.vnics|
  {
    && n < 0xFFFF
    && d.slot < |s0.pool.slots|
    && s == s0.(vnics := s.vnics, pool := WithRefs(s0.pool, d.slot, n + 1))
    && Deliver(s.vnics, d, i, hi, n + 1, s0.cap) == Deliver(s0.vnics, d, lo, hi, 1, s0.cap)
  }

  lemma DeliveringStarts(s: SwV, d: Desc, lo: nat, hi: nat)
    requires lo <= hi <= |s.vnics|
    requires d.slot < |s.pool.slots| && s.pool.slots[d.slot].refcnt == 1
    ensures Delivering(s, s, d, lo, lo, hi, 0)
  {
    assert WithRefs(s.pool, d.slot, 1) == s.pool;
  }

  lemma DeliveringStep(s0: SwV, s: SwV, d: Desc, lo: nat, i: nat, hi: nat, n: nat)
    requires lo <= i < hi <= |s0.vnics| == |s.vnics|
    requires Delivering(s0, s, d, lo, i, hi, n)
    ensures if i != d.src && Accepts(s.vnics[i], n + 1, s.cap)
            then Delivering(s0, s.(vnics := s.vnics[i := Accepted(s.vnics[i], d)],
                                   pool := WithRefs(s.pool, d.slot, n + 2)), d, lo, i + 1, hi, n + 1)
            else Delivering(s0, s, d, lo, i + 1, hi, n)
  {
    if i != d.src && Accepts(s.vnics[i], n + 1, s.cap) {
      assert WithRefs(s.pool, d.slot, n + 2) == WithRefs(s0.pool, d.slot, n + 2);
    }
  }

  // ---------------------------------------------------------------- the class

  class Vnic {
    var open: bool
    var macSet: bool
    var mac: Mac
    var irq: bool
    const rxq: Ring
    ghost const id: nat

    ghost predicate Valid() reads this, rxq, rxq.buf {
      rxq.Valid()
    }

    ghost function V(): VnicV
      requires Valid()
      reads this, rxq, rxq.buf
    {
      VnicV(open, macSet, mac, irq, rxq.Q())
    }

    constructor (ringCap: u16, ghost id: nat)
      ensures Valid() && fresh(rxq) && fresh(rxq.buf) && rxq.buf.Length == ringCap
      ensures this.id == rxq.id == id
      ensures V() == VnicV(false, false, ZERO_MAC, false, [])
    {
      open, macSet, mac, irq := false, false, ZERO_MAC, false;
      rxq := new Ring(ringCap, id);
      this.id := id;
    }

    method SetMac(m: Mac)
      requires Valid()
      modifies this
      ensures Valid() && V() == old(V()).(mac := m, macSet := true)
    {
      mac := m;
      macSet := true;
    }

    method SetIrq(b: bool)
      requires Valid()
      modifies this
      ensures Valid() && V() == old(V()).(irq := b)
    {
      irq := b;
    }

    /** try_deliver_one, including the undo of a push whose reference is refused. */
    method Accept(pool: Pool, d: Desc) returns (c: Code)
      requires Valid() && pool.Valid() && rxq.buf.Length > 0
      requires IsLive(pool.V(), d.slot, d.gen)
      modifies this, rxq, rxq.buf, pool.slots
      ensures Valid() && pool.Valid()
      ensures var v, p, rc := old(V()), old(pool.V()), old(pool.V()).slots[d.slot].refcnt;
              && c == DeliveryCode(v, rc, rxq.buf.Length)
              && if c == Ok then V() == Accepted(v, d) && pool.V() == WithRefs(p, d.slot, rc + 1)
                 else V() == v && pool.V() == p
    {
      if !open { return DroppedPolicy; }
      c := rxq.Push(d);
      if c != Ok { return; }
      c := pool.AddRef(d.slot, d.gen);
      if c != Ok {
        rxq.Unpush();
        return NotReady;
      }
      irq := true;
    }

    /** What vnet_switch_drop_expired does to each vnic. */
    method Clear(pool: Pool)
      requires Valid() && pool.Valid() && rxq.buf.Length > 0
      modifies this, rxq
      ensures Valid() && V() == Cleared(pool.V(), old(V()))
    {
      SkipStaleHead(pool);
      if rxq.count == 0 { irq := false; }
    }

    /** skip_stale_head. */
    method SkipStaleHead(pool: Pool)
      requires Valid() && pool.Valid() && rxq.buf.Length > 0
      modifies rxq
      ensures Valid()
      ensures V() == old(V()).(ring := SkipStale(pool.V(), old(V()).ring))
    {
      var more := true;
      ghost var p := pool.V();
      while more
        invariant Valid() && pool.V() == p
        invariant SkipStale(p, rxq.Q()) == SkipStale(p, old(rxq.Q()))
        invariant !more ==> rxq.Q() == SkipStale(p, rxq.Q())
        decreases |rxq.Q()|, more
      {
        more := DropStale(pool);
      }
    }

    /** One look at the head: drop it if it is stale. */
    method DropStale(pool: Pool) returns (dropped: bool)
      requires Valid() && pool.Valid() && rxq.buf.Length > 0
      modifies rxq
      ensures Valid()
      ensures dropped == (old(rxq.Q()) != [] && !Live(pool.V(), old(rxq.Q())[0]))
      ensures rxq.Q() == if dropped then old(rxq.Q())[1..] else old(rxq.Q())
    {
      var c, d := rxq.Peek();
      if c != Ok { return false; }
      var live := pool.Live(d.slot, d.gen);
      if live { return false; }
      c := rxq.DropHead();
      dropped := true;
    }
  }

  class Switch {
    const vnics: seq<Vnic>
    const pool: Pool
    const fdb: F.Fdb
    const ringCap: u16
    var flood: bool
    ghost var v: SwV

    /** The objects of the vnics, their rings and ring buffers. */
    ghost const repr: set<object>

    /** Every VM has a vnic, a ring and a buffer of its own. */
    ghost predicate Part(i: nat)
      requires i < |vnics|
    {
      && vnics[i] in repr && vnics[i].rxq in repr && vnics[i].rxq.buf in repr
      && vnics[i].id == vnics[i].rxq.id == i
      && vnics[i].rxq.buf.Length == ringCap
      && (forall j :: 0 <= j < |vnics| && j != i ==> vnics[i].rxq.buf != vnics[j].rxq.buf)
    }

    ghost predicate Layout() {
      && |vnics| < TWO32
      && ringCap > 0
      && (forall i :: 0 <= i < |vnics| ==> Part(i))
      && this !in repr && pool !in repr && pool.slots !in repr && fdb.entries !in repr
    }

    /** Vnic i shows the i-th entry of the value. */
    ghost predicate Shows(i: nat)
      requires i < |vnics|
      reads this`v, vnics[i], vnics[i].rxq, vnics[i].rxq.buf
    {
      i < |v.vnics| && vnics[i].Valid() && vnics[i].V() == v.vnics[i]
    }

    ghost predicate AllShow()
      requires Layout()
      reads this`v, repr
    {
      forall i :: 0 <= i < |vnics| ==> Part(i) && Shows(i)
    }

    /** The concrete fields show the value v. */
    ghost predicate Valid()
      reads this, repr, pool, pool.slots, fdb.entries
    {
      && Layout()
      && pool.Valid() && fdb.Valid()
      && |v.vnics| == |vnics| && v.flood == flood && v.cap == ringCap
      && AllShow()
      && v.pool == pool.V()
      && v.fdb == fdb.V()
    }

    /** A step on vnic i alone, mirrored in the value, keeps every vnic in line with it. */
    twostate lemma OthersKept(i: nat)
      requires Layout() && i < |vnics| && old(|v.vnics|) == |vnics| == |v.vnics|
      requires old(AllShow()) && Shows(i)
      requires forall j :: 0 <= j < |vnics| && j != i ==> v.vnics[j] == old(v.vnics)[j]
      requires forall o :: o in repr && o != vnics[i] && o != vnics[i].rxq && o != vnics[i].rxq.buf ==> unchanged(o)
      ensures AllShow()
    {
      forall j | 0 <= j < |vnics| ensures Part(j) && Shows(j) {
        assert Part(i) && Part(j) && old(Shows(j));
        if j != i {
          assert unchanged(vnics[j]) && unchanged(vnics[j].rxq) && unchanged(vnics[j].rxq.buf);
        }
      }
    }

    /** The value of the vnics did not change, nor did the vnics. */
    twostate lemma AllKept()
      requires Layout() && v.vnics == old(v.vnics)
      requires old(AllShow())
      requires forall o :: o in repr ==> unchanged(o)
      ensures AllShow()
    {
      forall j | 0 <= j < |vnics| ensures Part(j) && Shows(j) {
        assert Part(j) && old(Shows(j));
      }
    }

    static method NewVnics(nvm: u32, cap: u16) returns (vs: seq<Vnic>, ghost objs: set<object>)
      ensures |vs| == nvm && fresh(objs)
      ensures forall j :: 0 <= j < nvm ==>
                && vs[j] in objs && vs[j].rxq in objs && vs[j].rxq.buf in objs
                && vs[j].id == vs[j].rxq.id == j && vs[j].rxq.buf.Length == cap
                && vs[j].Valid() && vs[j].V() == VnicV(false, false, ZERO_MAC, false, [])
      ensures forall j, k :: 0 <= j < k < nvm ==> vs[j].rxq.buf != vs[k].rxq.buf
    {
      vs := [];
      objs := {};
      for i := 0 to nvm
        invariant |vs| == i
        invariant forall j :: 0 <= j < i ==>
                    && fresh(vs[j]) && fresh(vs[j].rxq) && fresh(vs[j].rxq.buf)
                    && vs[j].Valid() && vs[j].rxq.buf.Length == cap
                    && vs[j].V() == VnicV(false, false, ZERO_MAC, false, [])
        invariant forall j :: 0 <= j < i ==> vs[j].id == vs[j].rxq.id == j
        invariant forall j :: 0 <= j < i ==> vs[j] in objs && vs[j].rxq in objs && vs[j].rxq.buf in objs
        invariant forall j, k :: 0 <= j < k < i ==> vs[j].rxq.buf != vs[k].rxq.buf
        invariant fresh(objs)
      {
        var x := new Vnic(cap, i);
        vs := vs + [x];
        objs := objs + {x, x.rxq, x.rxq.buf};
      }
    }

    /** vnet_switch_init on arguments that pass its zero checks. */
    constructor (nvm: u32, frames: u16, fdbCap: u16, cap: u16, flood: bool)
      requires cap > 0
      ensures Valid()
      ensures v == Init(nvm, frames, fdbCap, cap, flood)
    {
      var vs, objs := NewVnics(nvm, cap);
      vnics := vs;
      repr := objs;
      ringCap := cap;
      this.flood := flood;
      pool := new Pool(frames);
      fdb := new F.Fdb(fdbCap);
      v := Init(nvm, frames, fdbCap, cap, flood);
      new;
      forall i | 0 <= i < |vnics| ensures Part(i) && Shows(i) {}
    }

    /** vnet_switch_init with its argument check. */
    static method Create(nvm: u32, frames: u16, fdbCap: u16, cap: u16, flood: bool)
      returns (c: Code, sw: Switch?)
      ensures c == (if nvm == 0 || frames == 0 || fdbCap == 0 || cap == 0 then BadArg else Ok)
      ensures c == Ok ==> sw != null && fresh(sw) && sw.Valid() && sw.v == Init(nvm, frames, fdbCap, cap, flood)
    {
      if nvm == 0 || frames == 0 || fdbCap == 0 || cap == 0 { return BadArg, null; }
      sw := new Switch(nvm, frames, fdbCap, cap, flood);
      c := Ok;
    }

    /** What the code reads off a vnic is what the value says. */
    lemma Reads(vm: nat)
      requires Valid() && vm < |vnics|
      ensures Part(vm) && Shows(vm)
      ensures vnics[vm].open == v.vnics[vm].open
      ensures vnics[vm].macSet == v.vnics[vm].macSet
      ensures vnics[vm].mac == v.vnics[vm].mac
      ensures vnics[vm].rxq.Valid() && vnics[vm].rxq.Q() == v.vnics[vm].ring
      ensures vnics[vm].rxq.buf.Length == ringCap > 0
    {
      assert Part(vm) && Shows(vm);
    }

    method OpenVm(vm: u32) returns (r: Reply)
      requires Valid()
      modifies this`v, repr
      ensures Valid() && (v, r) == Open(old(v), vm)
    {
      if vm >= |vnics| { return Status(BadArg); }
      Reads(vm);
      vnics[vm].open := true;
      r := Info(VnetInfo(ABI_VERSION, 0, FRAME_MAX, RX_IRQ, if vnics[vm].macSet then Some(vnics[vm].mac) else None));
      v := Open(v, vm).0;
      OthersKept(vm);
    }

    method Assign(vm: u32, m: Mac) returns (c: Code)
      requires Valid()
      modifies this`v, repr, fdb.entries
      ensures Valid() && (v, c) == AssignMac(old(v), vm, m)
    {
      if vm >= |vnics| { return BadArg; }
      Reads(vm);
      var n := vnics[vm];
      if !n.open { return NotOpen; }
      if !IsLocalUnicast(m) { return InvalMac; }
      if n.macSet && n.mac != m { return DupMac; }
      c := PinMac(vm, m);
      if c == Ok {
        Reads(vm);
        label before:
        n.SetMac(m);
        v := WithVnic(v, vm, n.V());
        OthersKept@before(vm);
      }
    }

    /** try_deliver_one, including the undo of a push whose reference is refused. */
    method DeliverOne(i: nat, d: Desc) returns (c: Code)
      requires Valid() && i < |vnics|
      requires IsLive(v.pool, d.slot, d.gen)
      modifies this`v, repr, pool.slots
      ensures Valid()
      ensures var rc := old(v).pool.slots[d.slot].refcnt;
              && c == DeliveryCode(old(v).vnics[i], rc, old(v).cap)
              && v == if c == Ok then old(v).(vnics := old(v).vnics[i := Accepted(old(v).vnics[i], d)],
                                              pool := WithRefs(old(v).pool, d.slot, rc + 1))
                      else old(v)
    {
      Reads(i);
      c := vnics[i].Accept(pool, d);
      v := v.(vnics := v.vnics[i := vnics[i].V()], pool := pool.V());
      OthersKept(i);
    }

    // Pool, FDB and ring operations as steps of the whole switch.

    method PinMac(vm: u32, m: Mac) returns (c: Code)
      requires Valid()
      modifies this`v, fdb.entries
      ensures Valid()
      ensures v == old(v).(fdb := F.Assign(old(v).fdb, vm, m).0) && c == F.Assign(old(v).fdb, vm, m).1
    {
      c := fdb.AssignMac(vm, m);
      v := v.(fdb := fdb.V());
      AllKept();
    }

    method LearnMac(src: u32, m: Mac)
      requires Valid()
      modifies this`v, fdb.entries
      ensures Valid() && v == old(v).(fdb := F.Learn(old(v).fdb, src, m).0)
    {
      var learned := fdb.LearnMac(src, m);
      v := v.(fdb := fdb.V());
      AllKept();
    }

    method AllocSlot(now: u32) returns (x: u16)
      requires Valid()
      modifies this`v, pool, pool.slots
      ensures Valid()
      ensures var k := FirstFree(old(v).pool.slots);
              if k < |old(v).pool.slots| && k < BAD_SLOT
              then x == k && v == old(v).(pool := Taken(old(v).pool, k, now))
              else x == BAD_SLOT && v == old(v)
    {
      x := pool.Alloc(now);
      v := v.(pool := pool.V());
      AllKept();
    }

    method FillSlot(x: u16, frame: seq<u8>, src: u32) returns (gen: u16)
      requires Valid() && x < |v.pool.slots| && |frame| <= FRAME_MAX
      modifies this`v, pool.slots
      ensures Valid() && v == old(v).(pool := Filled(old(v).pool, x, frame, src)) && gen == v.pool.slots[x].gen
    {
      pool.Fill(x, frame, src);
      v := v.(pool := pool.V());
      AllKept();
      gen := pool.slots[x].gen;
    }

    method DropRef(slot: u16, gen: u16) returns (r: Released)
      requires Valid()
      modifies this`v, pool, pool.slots
      ensures Valid()
      ensures var (p, r') := VnetPool.Release(old(v).pool, slot, gen); v == old(v).(pool := p) && r == r'
    {
      r := pool.Drop(slot, gen);
      v := v.(pool := pool.V());
      AllKept();
    }

    method DropHead(vm: nat)
      requires Valid() && vm < |vnics| && v.vnics[vm].ring != []
      modifies this`v, repr
      ensures Valid()
      ensures v == WithVnic(old(v), vm, old(v).vnics[vm].(ring := old(v).vnics[vm].ring[1..]))
    {
      Reads(vm);
      var dropped := vnics[vm].rxq.DropHead();
      v := WithVnic(v, vm, vnics[vm].V());
      OthersKept(vm);
    }

    /** The delivery loops of vnet_switch_tx: every VM of the range except the sender. */
    method DeliverRange(lo: nat, hi: nat, d: Desc) returns (n: nat)
      requires Valid() && lo <= hi <= |vnics|
      requires IsLive(v.pool, d.slot, d.gen) && v.pool.slots[d.slot].refcnt == 1
      modifies this`v, repr, pool.slots
      ensures Valid()
      ensures var (vs, rc) := Deliver(old(v).vnics, d, lo, hi, 1, old(v).cap);
              v == old(v).(vnics := vs, pool := WithRefs(old(v).pool, d.slot, rc)) && n == rc - 1
    {
      n := 0;
      ghost var v0 := v;
      DeliveringStarts(v, d, lo, hi);
      for i := lo to hi
        invariant Valid() && |v.vnics| == |v0.vnics|
        invariant Delivering(v0, v, d, lo, i, hi, n)
      {
        DeliveringStep(v0, v, d, lo, i, hi, n);
        assert v.pool.slots[d.slot].refcnt == n + 1;
        if i != d.src {
          var c := DeliverOne(i, d);
          if c == Ok { n := n + 1; }
        }
      }
    }

    /** The checks at the top of vnet_switch_tx. */
    method CheckTx(src: u32, frame: seq<u8>) returns (c: Code)
      requires Valid()
      ensures var refusal := TxRefusal(v, src, frame);
              c == if refusal.Some? then refusal.value else Ok
    {
      if src >= |vnics| { return BadArg; }
      Reads(src);
      var n := vnics[src];
      if !n.open { return NotOpen; }
      if !n.macSet { return NoMac; }
      if |frame| < FRAME_MIN || |frame| > FRAME_MAX { return FrameLen; }
      var m := MacAt(frame, 6);
      if m == ZERO_MAC || IsMulticast(m) { return Malformed; }
      if m != n.mac { return Spoof; }
      c := Ok;
    }

    /** vnet_switch_tx. */
    method Transmit(src: u32, frame: seq<u8>, now: u32) returns (c: Code)
      requires Valid()
      modifies this`v, repr, fdb.entries, pool, pool.slots
      ensures Valid() && (v, c) == Tx(old(v), src, frame, now)
    {
      c := CheckTx(src, frame);
      if c != Ok { return; }
      LearnMac(src, MacAt(frame, 6));
      var x := AllocSlot(now);
      if x == BAD_SLOT { return PoolFull; }
      var gen := FillSlot(x, frame, src);
      c := SendOut(Desc(x, gen, |frame|, src), MacAt(frame, 0));
    }

    /** vnet_switch_tx from the destination check on. */
    method SendOut(d: Desc, dst: Mac) returns (c: Code)
      requires Valid()
      requires IsLive(v.pool, d.slot, d.gen) && v.pool.slots[d.slot].refcnt == 1
      modifies this`v, repr, pool, pool.slots
      ensures Valid() && (v, c) == TxOut(old(v), d, dst)
    {
      if dst == ZERO_MAC {
        var freed := DropRef(d.slot, d.gen);
        return Malformed;
      }
      var n := Forward(d, dst);
      var freed := DropRef(d.slot, d.gen);
      if n == 0 {
        return if IsMulticast(dst) then DroppedPolicy else DroppedUnknown;
      }
      c := Ok;
    }

    /** The choice of receivers in vnet_switch_tx. */
    method Forward(d: Desc, dst: Mac) returns (n: nat)
      requires Valid()
      requires IsLive(v.pool, d.slot, d.gen) && v.pool.slots[d.slot].refcnt == 1
      modifies this`v, repr, pool.slots
      ensures Valid()
      ensures var (lo, hi) := Range(old(v), d.src, dst);
              var (vs, rc) := Deliver(old(v).vnics, d, lo, hi, 1, old(v).cap);
              v == old(v).(vnics := vs, pool := WithRefs(old(v).pool, d.slot, rc)) && n == rc - 1
    {
      if IsMulticast(dst) {
        n := DeliverRange(0, |vnics|, d);
        return;
      }
      var to := fdb.Find(dst);
      if to != F.NO_VM && to != d.src {
        if to < |vnics| {
          n := DeliverRange(to, to + 1, d);
          return;
        }
      } else if to == F.NO_VM && flood {
        n := DeliverRange(0, |vnics|, d);
        return;
      }
      n := 0;
      assert WithRefs(v.pool, d.slot, 1) == v.pool;
    }

    /** The preamble of the receiver calls. */
    method SkipHead(vm: nat)
      requires Valid() && vm < |vnics|
      modifies this`v, repr
      ensures Valid() && v == Skipped(old(v), vm)
    {
      Reads(vm);
      vnics[vm].SkipStaleHead(pool);
      v := WithVnic(v, vm, vnics[vm].V());
      OthersKept(vm);
    }

    method SetIrq(vm: nat, b: bool)
      requires Valid() && vm < |vnics|
      modifies this`v, repr
      ensures Valid() && v == WithIrq(old(v), vm, b)
    {
      Reads(vm);
      vnics[vm].SetIrq(b);
      v := WithVnic(v, vm, vnics[vm].V());
      OthersKept(vm);
    }

    /** vnet_switch_poll_rx. */
    method PollRx(vm: u32) returns (r: Reply)
      requires Valid()
      modifies this`v, repr
      ensures Valid() && (v, r) == Poll(old(v), vm)
    {
      if vm >= |vnics| { return Status(BadArg); }
      Reads(vm);
      if !vnics[vm].open { return Status(NotOpen); }
      SkipHead(vm);
      Reads(vm);
      if vnics[vm].rxq.count == 0 {
        SetIrq(vm, false);
        return Status(Empty);
      }
      var c, d := vnics[vm].rxq.Peek();
      r := Meta(d.slot, d.gen, d.len, d.src);
    }

    /** vnet_switch_read_rx. */
    method ReadRx(vm: u32, slot: u16, gen: u16, dstLen: u16) returns (r: Reply)
      requires Valid()
      modifies this`v, repr
      ensures Valid() && (v, r) == Read(old(v), vm, slot, gen, dstLen)
    {
      if vm >= |vnics| { return Status(BadArg); }
      Reads(vm);
      if !vnics[vm].open { return Status(NotOpen); }
      SkipHead(vm);
      Reads(vm);
      var c, d := vnics[vm].rxq.Peek();
      if c != Ok { return Status(Empty); }
      if d.slot != slot || d.gen != gen { return Status(NotOwner); }
      var live := pool.Live(slot, gen);
      if !live { return Status(StaleCookie); }
      var f := pool.slots[slot];
      if dstLen < f.len { return Status(BadArg); }
      r := Bytes(f.data[..f.len]);
    }

    /** vnet_switch_release_rx. */
    method Release(vm: u32, slot: u16, gen: u16) returns (r: Reply)
      requires Valid()
      modifies this`v, repr, pool, pool.slots
      ensures Valid() && (v, r) == ReleaseRx(old(v), vm, slot, gen)
    {
      if vm >= |vnics| { return Status(BadArg); }
      Reads(vm);
      if !vnics[vm].open { return Status(NotOpen); }
      SkipHead(vm);
      Reads(vm);
      var c, d := vnics[vm].rxq.Peek();
      if c != Ok { return Status(Empty); }
      if d.slot != slot || d.gen != gen { return Status(NotOwner); }
      DropHead(vm);
      var freed := DropRef(slot, gen);
      Reads(vm);
      if freed.Refused? { return Status(freed.code); }
      if vnics[vm].rxq.count == 0 { SetIrq(vm, false); }
      r := Status(Ok);
    }

    /** vnet_switch_irq_ack. */
    method IrqAck(vm: u32) returns (r: Reply)
      requires Valid()
      modifies this`v, repr
      ensures Valid() && (v, r) == Ack(old(v), vm)
    {
      if vm >= |vnics| { return Status(BadArg); }
      Reads(vm);
      if !vnics[vm].open { return Status(NotOpen); }
      SkipHead(vm);
      Reads(vm);
      if vnics[vm].rxq.count == 0 {
        SetIrq(vm, false);
        return Pending(false);
      }
      SetIrq(vm, true);
      r := Pending(true);
    }

    method ReapPool(now: u32, timeout: u32) returns (freed: u16)
      requires Valid()
      modifies this`v, pool, pool.slots
      ensures Valid()
      ensures v == old(v).(pool := DropExpired(old(v).pool, now, timeout))
      ensures freed == if timeout == 0 then 0 else CountAged(old(v).pool.slots, now, timeout)
    {
      freed := pool.Reap(now, timeout);
      v := v.(pool := pool.V());
      AllKept();
    }

    method ClearVnic(i: nat)
      requires Valid() && i < |vnics|
      modifies this`v, repr
      ensures Valid() && v == WithVnic(old(v), i, Cleared(old(v).pool, old(v).vnics[i]))
    {
      Reads(i);
      vnics[i].Clear(pool);
      v := WithVnic(v, i, vnics[i].V());
      OthersKept(i);
    }

    /** vnet_switch_drop_expired. */
    method DropExpiredFrames(now: u32, timeout: u32) returns (freed: u16)
      requires Valid()
      modifies this`v, repr, pool, pool.slots
      ensures Valid() && v == Expire(old(v), now, timeout)
      ensures freed == ExpiredCount(old(v), now, timeout)
    {
      freed := ReapPool(now, timeout);
      if freed > 0 {
        ghost var v1 := v;
        for i := 0 to |vnics|
          invariant Valid() && v == v1.(vnics := v.vnics)
          invariant forall j :: 0 <= j < i ==> v.vnics[j] == Cleared(v1.pool, v1.vnics[j])
          invariant forall j :: i <= j < |vnics| ==> v.vnics[j] == v1.vnics[j]
        {
          ClearVnic(i);
        }
        assert v.vnics == Expire(old(v), now, timeout).vnics;
      }
    }
  }
}
