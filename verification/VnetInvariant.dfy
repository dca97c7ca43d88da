/** The invariant that ties pool, rings, counts, generations, birth ticks and FDB together,
    and the counting facts behind it. */
module VnetInvariant {
  import opened Base
  import opened VnetCodes
  import opened VnetMac
  import opened VnetPool
  import opened VnetRing
  import opened VnetSwitch
  import F = VnetFdb

  /** A ring holds a descriptor for slot x. */
  ghost predicate Has(q: seq<Desc>, x: nat) {
    exists k :: 0 <= k < |q| && q[k].slot == x
  }

  /** Number of rings that hold a descriptor for slot x. */
  ghost function RefCount(vs: seq<VnicV>, x: nat): (n: nat)
    ensures n <= |vs|
  {
    if vs == [] then 0
    else RefCount(vs[..|vs| - 1], x) + if Has(vs[|vs| - 1].ring, x) then 1 else 0
  }

  lemma {:induction false} RefCountUpdate(vs: seq<VnicV>, i: nat, v: VnicV, x: nat)
    requires i < |vs|
    ensures RefCount(vs[i := v], x) + (if Has(vs[i].ring, x) then 1 else 0) ==
            RefCount(vs, x) + (if Has(v.ring, x) then 1 else 0)
  {
    var n := |vs| - 1;
    if i < n {
      RefCountUpdate(vs[..n], i, v, x);
      assert vs[i := v][..n] == vs[..n][i := v];
    } else {
      assert vs[i := v][..n] == vs[..n];
    }
  }

  lemma {:induction false} RefCountZero(vs: seq<VnicV>, x: nat)
    ensures RefCount(vs, x) == 0 <==> forall i :: 0 <= i < |vs| ==> !Has(vs[i].ring, x)
  {
    if vs != [] {
      var n := |vs| - 1;
      RefCountZero(vs[..n], x);
      assert forall i :: 0 <= i < n ==> vs[..n][i] == vs[i];
    }
  }

  lemma {:induction false} RefCountSame(vs: seq<VnicV>, ws: seq<VnicV>, x: nat)
    requires |vs| == |ws|
    requires forall i :: 0 <= i < |vs| ==> (Has(vs[i].ring, x) <==> Has(ws[i].ring, x))
    ensures RefCount(vs, x) == RefCount(ws, x)
  {
    if vs != [] {
      RefCountSame(vs[..|vs| - 1], ws[..|vs| - 1], x);
    }
  }

  lemma {:induction false} LiveCountUpdate(slots: seq<Frame>, x: nat, f: Frame)
    requires x < |slots|
    ensures LiveCount(slots[x := f]) + (if slots[x].refcnt != 0 then 1 else 0) ==
            LiveCount(slots) + (if f.refcnt != 0 then 1 else 0)
  {
    var n := |slots| - 1;
    if x < n {
      LiveCountUpdate(slots[..n], x, f);
      assert slots[x := f][..n] == slots[..n][x := f];
    } else {
      assert slots[x := f][..n] == slots[..n];
    }
  }

  /** The reaper frees as many slots as it counts. */
  lemma {:induction false} LiveCountReaped(slots: seq<Frame>, slots': seq<Frame>, now: u32, timeout: u32)
    requires |slots'| == |slots|
    requires forall i :: 0 <= i < |slots| ==> slots'[i] == Reaped(slots[i], now, timeout)
    ensures LiveCount(slots') + CountAged(slots, now, timeout) == LiveCount(slots)
    ensures CountAged(slots, now, timeout) == 0 ==> slots' == slots
  {
    if slots != [] {
      var n := |slots| - 1;
      LiveCountReaped(slots[..n], slots'[..n], now, timeout);
      assert slots == slots[..n] + [slots[n]] && slots' == slots'[..n] + [slots'[n]];
    }
  }

  /** Every descriptor of a ring names a live slot of its generation, no slot occurs twice, and
      births do not decrease along the ring. */
  ghost predicate RingOk(p: PoolV, born: seq<nat>, q: seq<Desc>) {
    && |born| == |p.slots|
    && (forall k :: 0 <= k < |q| ==>
          Live(p, q[k]) && p.slots[q[k].slot].len == q[k].len && p.slots[q[k].slot].src == q[k].src)
    && (forall k, l :: 0 <= k < l < |q| ==>
          q[k].slot != q[l].slot && born[q[k].slot] <= born[q[l].slot])
  }

  /** `born` holds the unbounded birth tick of each slot; the slot itself keeps 32 bits of it. */
  ghost predicate PoolOk(p: PoolV, born: seq<nat>, now: nat) {
    && |born| == |p.slots| <= 0xFFFF
    && p.inUse == LiveCount(p.slots)
    && (forall x :: 0 <= x < |p.slots| && p.slots[x].refcnt != 0 ==>
          born[x] <= now && p.slots[x].born == Tick(born[x]))
  }

  /** Some entry pins m to g. */
  ghost predicate PinnedTo(fdb: seq<F.Entry>, m: Mac, g: nat) {
    exists e :: 0 <= e < |fdb| && fdb[e].kind == F.Assigned && fdb[e].mac == m && fdb[e].guest == g
  }

  ghost predicate EntryAgrees(vs: seq<VnicV>, e: F.Entry) {
    e.kind == F.Vacant ||
    (e.kind == F.Assigned && e.guest < |vs| && vs[e.guest].macSet && vs[e.guest].mac == e.mac)
  }

  /** The FDB holds exactly the pairs (mac of vm, vm) of the VMs that set one, all pinned. */
  ghost predicate FdbAgrees(vs: seq<VnicV>, fdb: seq<F.Entry>) {
    && F.WellFormed(fdb)
    && (forall e {:trigger EntryAgrees(vs, fdb[e])} :: 0 <= e < |fdb| ==> EntryAgrees(vs, fdb[e]))
    && (forall i {:trigger PinnedTo(fdb, vs[i].mac, i)} :: 0 <= i < |vs| && vs[i].macSet ==>
          IsLocalUnicast(vs[i].mac) && PinnedTo(fdb, vs[i].mac, i))
  }

  /** Looking up the address of a VM finds its entry. */
  lemma FindsPinned(vs: seq<VnicV>, fdb: seq<F.Entry>, i: nat)
    requires FdbAgrees(vs, fdb) && i < |vs| && vs[i].macSet
    ensures var e := F.FindMac(fdb, vs[i].mac);
            IsLocalUnicast(vs[i].mac) && e < |fdb| && fdb[e].kind == F.Assigned && fdb[e].guest == i
  {
    assert PinnedTo(fdb, vs[i].mac, i);
  }

  /** Only the addresses of the VMs matter. */
  lemma SameAddresses(vs: seq<VnicV>, vs': seq<VnicV>, fdb: seq<F.Entry>)
    requires FdbAgrees(vs, fdb) && |vs'| == |vs|
    requires forall i :: 0 <= i < |vs| ==> vs'[i].macSet == vs[i].macSet && vs'[i].mac == vs[i].mac
    ensures FdbAgrees(vs', fdb)
  {
    forall e | 0 <= e < |fdb| ensures EntryAgrees(vs', fdb[e]) {
      assert EntryAgrees(vs, fdb[e]);
    }
    forall i | 0 <= i < |vs'| && vs'[i].macSet ensures IsLocalUnicast(vs'[i].mac) && PinnedTo(fdb, vs'[i].mac, i) {
      assert PinnedTo(fdb, vs[i].mac, i);
    }
  }

  ghost predicate VnicOk(s: SwV, born: seq<nat>, v: VnicV) {
    RingOk(s.pool, born, v.ring) && |v.ring| <= s.cap && (v.irq <==> v.ring != [])
  }

  ghost predicate Inv(s: SwV, born: seq<nat>, now: nat) {
    && 0 < |s.vnics| < TWO32 && s.cap > 0
    && PoolOk(s.pool, born, now)
    && (forall i :: 0 <= i < |s.vnics| ==> VnicOk(s, born, s.vnics[i]))
    && (forall x :: 0 <= x < |s.pool.slots| ==> s.pool.slots[x].refcnt == RefCount(s.vnics, x))
    && FdbAgrees(s.vnics, s.fdb)
  }

  /** No slot was ever taken. */
  ghost function NoBirths(frames: nat): seq<nat> {
    seq(frames, i => 0)
  }

  lemma InitInv(n: u32, frames: u16, fdbCap: u16, ringCap: u16, flood: bool)
    requires n > 0 && ringCap > 0
    ensures Inv(Init(n, frames, fdbCap, ringCap, flood), NoBirths(frames), 0)
  {
    var s := Init(n, frames, fdbCap, ringCap, flood);
    NoneLive(s.pool.slots);
    forall x | 0 <= x < |s.pool.slots| ensures RefCount(s.vnics, x) == 0 {
      RefCountZero(s.vnics, x);
    }
  }

  lemma {:induction false} NoneLive(slots: seq<Frame>)
    ensures LiveCount(slots) == 0 <==> forall i :: 0 <= i < |slots| ==> slots[i].refcnt == 0
  {
    if slots != [] {
      var n := |slots| - 1;
      NoneLive(slots[..n]);
      assert forall i :: 0 <= i < n ==> slots[..n][i] == slots[i];
    }
  }

  /** Under the invariant skip_stale_head finds nothing to skip. */
  lemma NothingStale(s: SwV, born: seq<nat>, now: nat, vm: nat)
    requires Inv(s, born, now) && vm < |s.vnics|
    ensures SkipStale(s.pool, s.vnics[vm].ring) == s.vnics[vm].ring
    ensures Skipped(s, vm) == s
  {
    assert VnicOk(s, born, s.vnics[vm]);
    assert s.vnics[vm := s.vnics[vm]] == s.vnics;
  }

  // ---------------------------------------------------------------- transmit

  /** The 16-bit reference count holds this many copies beside the scratch reference. */
  const MAX_COPIES: nat := 0xFFFE

  /** Who would take a copy in a delivery loop: open, not the sender, ring not full. */
  ghost predicate Takes(vs: seq<VnicV>, cap: nat, src: nat, lo: nat, hi: nat, j: nat) {
    lo <= j < hi && j < |vs| && j != src && vs[j].open && |vs[j].ring| < cap
  }

  /** How many VMs below j would. */
  ghost function Takers(vs: seq<VnicV>, cap: nat, src: nat, lo: nat, hi: nat, j: nat): (n: nat)
    ensures n <= j
  {
    if j == 0 then 0
    else Takers(vs, cap, src, lo, hi, j - 1) + if Takes(vs, cap, src, lo, hi, j - 1) then 1 else 0
  }

  /** With room for `room` more references, the first `room` takers get one. */
  ghost predicate Gets(vs: seq<VnicV>, cap: nat, src: nat, lo: nat, hi: nat, room: nat, j: nat) {
    Takes(vs, cap, src, lo, hi, j) && Takers(vs, cap, src, lo, hi, j) < room
  }

  /** One descriptor more for exactly those who get one. */
  ghost predicate HandedOut(vs: seq<VnicV>, vs': seq<VnicV>, d: Desc, cap: nat, lo: nat, hi: nat, room: nat) {
    && |vs'| == |vs|
    && forall j :: 0 <= j < |vs| ==>
         vs'[j] == if Gets(vs, cap, d.src, lo, hi, room, j) then Accepted(vs[j], d) else vs[j]
  }

  /** Leaving VM lo out of the range takes it out of the count; what happened to its ring is irrelevant. */
  lemma {:induction false} TakersSkip(vs: seq<VnicV>, vs': seq<VnicV>, cap: nat, src: nat, lo: nat, hi: nat, j: nat)
    requires lo < hi <= |vs| == |vs'| && forall i :: lo < i < hi ==> vs'[i] == vs[i]
    ensures Takers(vs, cap, src, lo, hi, j) == Takers(vs', cap, src, lo + 1, hi, j) +
              if lo < j && Takes(vs, cap, src, lo, hi, lo) then 1 else 0
  {
    if j > 0 { TakersSkip(vs, vs', cap, src, lo, hi, j - 1); }
  }

  /** The loop hands one copy to the first VMs that take one, up to the limit of the 16-bit count. */
  lemma {:induction false} DeliverHandsOut(vs: seq<VnicV>, d: Desc, lo: nat, hi: nat, rc: u16, cap: nat, room: nat)
    requires lo <= hi <= |vs| && rc + room == 0xFFFF
    ensures HandedOut(vs, Deliver(vs, d, lo, hi, rc, cap).0, d, cap, lo, hi, room)
    ensures Deliver(vs, d, lo, hi, rc, cap).1 > rc <==> exists j :: Gets(vs, cap, d.src, lo, hi, room, j)
    decreases hi - lo
  {
    if lo < hi {
      if lo != d.src && Accepts(vs[lo], rc, cap) {
        var vs1 := vs[lo := Accepted(vs[lo], d)];
        DeliverHandsOut(vs1, d, lo + 1, hi, rc + 1, cap, room - 1);
        HandedOutOne(vs, Deliver(vs1, d, lo + 1, hi, rc + 1, cap).0, d, cap, lo, hi, room);
      } else {
        DeliverHandsOut(vs, d, lo + 1, hi, rc, cap, room);
        GetsAfterNone(vs, cap, d.src, lo, hi, room);
      }
    }
  }

  /** VM lo got a copy, then the rest of the range was served. */
  lemma HandedOutOne(vs: seq<VnicV>, vs': seq<VnicV>, d: Desc, cap: nat, lo: nat, hi: nat, room: nat)
    requires lo < hi <= |vs| && Takes(vs, cap, d.src, lo, hi, lo) && room > 0
    requires HandedOut(vs[lo := Accepted(vs[lo], d)], vs', d, cap, lo + 1, hi, room - 1)
    ensures HandedOut(vs, vs', d, cap, lo, hi, room)
    ensures Gets(vs, cap, d.src, lo, hi, room, lo)
  {
    NoneBelow(vs, cap, d.src, lo, hi, lo);
    GetsAfterOne(vs, vs[lo := Accepted(vs[lo], d)], cap, d.src, lo, hi, room);
  }

  lemma {:induction false} NoneBelow(vs: seq<VnicV>, cap: nat, src: nat, lo: nat, hi: nat, j: nat)
    requires j <= lo
    ensures Takers(vs, cap, src, lo, hi, j) == 0
  {
    if j > 0 { NoneBelow(vs, cap, src, lo, hi, j - 1); }
  }

  lemma GetsAfterOne(vs: seq<VnicV>, vs': seq<VnicV>, cap: nat, src: nat, lo: nat, hi: nat, room: nat)
    requires lo < hi <= |vs| == |vs'| && forall i :: lo < i < hi ==> vs'[i] == vs[i]
    requires Takes(vs, cap, src, lo, hi, lo) && room > 0
    ensures forall j :: j != lo ==> (Gets(vs, cap, src, lo, hi, room, j) <==> Gets(vs', cap, src, lo + 1, hi, room - 1, j))
  {
    forall j: nat | j != lo
      ensures Gets(vs, cap, src, lo, hi, room, j) <==> Gets(vs', cap, src, lo + 1, hi, room - 1, j)
    {
      TakersSkip(vs, vs', cap, src, lo, hi, j);
    }
  }

  lemma GetsAfterNone(vs: seq<VnicV>, cap: nat, src: nat, lo: nat, hi: nat, room: nat)
    requires lo < hi <= |vs| && (!Takes(vs, cap, src, lo, hi, lo) || room == 0)
    ensures forall j :: Gets(vs, cap, src, lo, hi, room, j) <==> Gets(vs, cap, src, lo + 1, hi, room, j)
  {
    forall j: nat ensures Gets(vs, cap, src, lo, hi, room, j) <==> Gets(vs, cap, src, lo + 1, hi, room, j) {
      TakersSkip(vs, vs, cap, src, lo, hi, j);
    }
  }

  lemma {:induction false} TakersGrow(vs: seq<VnicV>, cap: nat, src: nat, lo: nat, hi: nat, i: nat, j: nat)
    requires i <= j
    ensures Takers(vs, cap, src, lo, hi, i) <= Takers(vs, cap, src, lo, hi, j)
    decreases j
  {
    if i < j { TakersGrow(vs, cap, src, lo, hi, i, j - 1); }
  }

  /** The taker right after `room` others. */
  lemma {:induction false} FirstRefused(vs: seq<VnicV>, cap: nat, src: nat, lo: nat, hi: nat, room: nat, n: nat) returns (j: nat)
    requires Takers(vs, cap, src, lo, hi, n) > room
    ensures j < n && Takes(vs, cap, src, lo, hi, j) && Takers(vs, cap, src, lo, hi, j) >= room
  {
    if Takers(vs, cap, src, lo, hi, n - 1) > room {
      j := FirstRefused(vs, cap, src, lo, hi, room, n - 1);
    } else {
      j := n - 1;
    }
  }

  /** Everybody who takes a copy gets one, so that the undo of a push is not reached, if and only if
      at most `room` VMs take one. */
  lemma EveryTakerGets(vs: seq<VnicV>, cap: nat, src: nat, lo: nat, hi: nat, room: nat)
    ensures (forall j :: Takes(vs, cap, src, lo, hi, j) ==> Gets(vs, cap, src, lo, hi, room, j)) <==>
            Takers(vs, cap, src, lo, hi, |vs|) <= room
  {
    if Takers(vs, cap, src, lo, hi, |vs|) <= room {
      forall j: nat | Takes(vs, cap, src, lo, hi, j) ensures Gets(vs, cap, src, lo, hi, room, j) {
        TakersGrow(vs, cap, src, lo, hi, j + 1, |vs|);
      }
    } else {
      var j := FirstRefused(vs, cap, src, lo, hi, room, |vs|);
    }
  }

  lemma {:induction false} SenderDoesNotTake(vs: seq<VnicV>, cap: nat, src: nat, lo: nat, hi: nat, j: nat)
    requires src < j
    ensures Takers(vs, cap, src, lo, hi, j) < j
  {
    if src < j - 1 { SenderDoesNotTake(vs, cap, src, lo, hi, j - 1); }
  }

  /** With at most 65535 VMs, of which one sends, the undo of a push is never reached. */
  lemma SmallSwitchServesAll(vs: seq<VnicV>, cap: nat, src: nat, lo: nat, hi: nat)
    requires src < |vs| <= 0xFFFF
    ensures forall j :: Takes(vs, cap, src, lo, hi, j) ==> Gets(vs, cap, src, lo, hi, MAX_COPIES, j)
  {
    SenderDoesNotTake(vs, cap, src, lo, hi, |vs|);
    EveryTakerGets(vs, cap, src, lo, hi, MAX_COPIES);
  }

  /** The loop takes one reference for each descriptor it leaves behind, however many VMs there are. */
  lemma {:induction false} DeliverCounts(vs: seq<VnicV>, d: Desc, lo: nat, hi: nat, rc: u16, cap: nat)
    requires lo <= hi <= |vs|
    requires forall j :: lo <= j < hi ==> !Has(vs[j].ring, d.slot)
    ensures var (vs', rc') := Deliver(vs, d, lo, hi, rc, cap);
            RefCount(vs', d.slot) == RefCount(vs, d.slot) + (rc' - rc)
    decreases hi - lo
  {
    if lo < hi {
      if lo != d.src && Accepts(vs[lo], rc, cap) {
        var v := Accepted(vs[lo], d);
        DeliverCounts(vs[lo := v], d, lo + 1, hi, rc + 1, cap);
        RefCountUpdate(vs, lo, v, d.slot);
        HasAppend(vs[lo].ring, d, d.slot);
      } else {
        DeliverCounts(vs, d, lo + 1, hi, rc, cap);
      }
    }
  }

  /** Learning the sender's own pinned address changes nothing. */
  lemma LearnIsNoop(s: SwV, born: seq<nat>, now: nat, src: nat)
    requires Inv(s, born, now) && src < |s.vnics| && s.vnics[src].macSet
    ensures F.Learn(s.fdb, src, s.vnics[src].mac) == (s.fdb, Ok)
  {
    FindsPinned(s.vnics, s.fdb, src);
  }

  /** A free slot is behind no descriptor. */
  lemma FreeSlotUnheld(s: SwV, born: seq<nat>, now: nat, x: nat)
    requires Inv(s, born, now) && x < |s.pool.slots| && s.pool.slots[x].refcnt == 0
    ensures forall j :: 0 <= j < |s.vnics| ==> !Has(s.vnics[j].ring, x)
  {
    RefCountZero(s.vnics, x);
  }

  /** A frame stored in the free slot x and handed to some VMs, one descriptor and one reference
      each, at tick now'. */
  ghost predicate StoreStep(s: SwV, s': SwV, now': nat, x: nat, f: Frame, d: Desc) {
    && x < |s.pool.slots| && s.pool.slots[x].refcnt == 0
    && d.slot == x && d.gen == f.gen && d.len == f.len && d.src == f.src && f.born == Tick(now')
    && |s'.vnics| == |s.vnics|
    && (forall j :: 0 <= j < |s.vnics| ==>
          s'.vnics[j] == s.vnics[j] ||
          (s'.vnics[j] == Accepted(s.vnics[j], d) && |s.vnics[j].ring| < s.cap))
    && RefCount(s'.vnics, x) == f.refcnt
    && s' == s.(vnics := s'.vnics,
                pool := PoolV(s.pool.slots[x := f], s'.pool.inUse))
    && s'.pool.inUse == s.pool.inUse + if f.refcnt > 0 then 1 else 0
  }

  lemma StoreKeepsInv(s: SwV, s': SwV, born: seq<nat>, now: nat, now': nat, x: nat, f: Frame, d: Desc)
    requires Inv(s, born, now) && now <= now'
    requires StoreStep(s, s', now', x, f, d)
    ensures Inv(s', born[x := now'], now')
  {
    SameAddresses(s.vnics, s'.vnics, s.fdb);
    FreeSlotUnheld(s, born, now, x);
    LiveCountUpdate(s.pool.slots, x, f);
    forall j | 0 <= j < |s'.vnics| ensures VnicOk(s', born[x := now'], s'.vnics[j]) {
      assert VnicOk(s, born, s.vnics[j]);
      var q := s.vnics[j].ring;
      assert forall k :: 0 <= k < |q| ==> q[k].slot != x;
      StoredRingOk(s, s', born, now, now', x, f, d, j);
    }
    forall y | 0 <= y < |s.pool.slots| && y != x
      ensures RefCount(s'.vnics, y) == RefCount(s.vnics, y)
    {
      forall j | 0 <= j < |s.vnics| ensures Has(s'.vnics[j].ring, y) <==> Has(s.vnics[j].ring, y) {
        HasAppend(s.vnics[j].ring, d, y);
      }
      RefCountSame(s.vnics, s'.vnics, y);
    }
  }

  lemma HasAppend(q: seq<Desc>, d: Desc, y: nat)
    ensures Has(q + [d], y) <==> Has(q, y) || d.slot == y
  {
    if Has(q, y) {
      var k :| 0 <= k < |q| && q[k].slot == y;
      assert (q + [d])[k].slot == y;
    }
    assert (q + [d])[|q|] == d;
  }

  lemma StoredRingOk(s: SwV, s': SwV, born: seq<nat>, now: nat, now': nat, x: nat, f: Frame, d: Desc, j: nat)
    requires Inv(s, born, now) && now <= now'
    requires StoreStep(s, s', now', x, f, d) && j < |s.vnics|
    requires forall k :: 0 <= k < |s.vnics[j].ring| ==> s.vnics[j].ring[k].slot != x
    ensures RingOk(s'.pool, born[x := now'], s'.vnics[j].ring)
  {
    assert VnicOk(s, born, s.vnics[j]);
    var q, q' := s.vnics[j].ring, s'.vnics[j].ring;
    if q' != q {
      HasAppend(q, d, x);
      RefCountZero(s'.vnics, x);
      assert Has(s'.vnics[j].ring, x);
      assert f.refcnt > 0;
    }
  }

  function DescOf(x: nat, f: Frame): Desc
    requires x < TWO16
  {
    Desc(x, f.gen, f.len, f.src)
  }

  /** The frame as tx writes it into the free slot x. */
  function Loaded(p: PoolV, x: nat, now: u32, frame: seq<u8>, src: u32): PoolV
    requires x < |p.slots| && |frame| <= FRAME_MAX
  {
    Filled(Taken(p, x, now), x, frame, src)
  }

  /** The receiver range of an admitted frame; nobody for the zero address. */
  function Reach(s: SwV, src: u32, dst: Mac): (r: (nat, nat))
    ensures r.0 <= r.1 <= |s.vnics|
  {
    if dst == ZERO_MAC then (0, 0) else Range(s, src, dst)
  }

  function Verdict(any: bool, dst: Mac): Code {
    if dst == ZERO_MAC then Malformed
    else if any then Ok else if IsMulticast(dst) then DroppedPolicy else DroppedUnknown
  }

  /** Slot x holds f with one reference per copy handed out. */
  function AfterTx(s: SwV, x: nat, f: Frame, dst: Mac): (SwV, Code)
    requires x < |s.pool.slots| <= 0xFFFF && s.pool.inUse < 0xFFFF
  {
    var (lo, hi) := Reach(s, f.src, dst);
    var (vs, rc) := Deliver(s.vnics, DescOf(x, f), lo, hi, 1, s.cap);
    (s.(vnics := vs, pool := PoolV(s.pool.slots[x := f.(refcnt := rc - 1)],
                                   s.pool.inUse + if rc > 1 then 1 else 0)),
     Verdict(rc > 1, dst))
  }

  lemma TxOutIs(s: SwV, p: PoolV, x: nat, dst: Mac)
    requires x < |s.pool.slots| == |p.slots| <= 0xFFFF && s.pool.inUse < 0xFFFF
    requires p.slots == s.pool.slots[x := p.slots[x]] && p.inUse == s.pool.inUse + 1
    requires p.slots[x].refcnt == 1
    ensures TxOut(s.(pool := p), DescOf(x, p.slots[x]), dst) == AfterTx(s, x, p.slots[x], dst)
  {
    var d := DescOf(x, p.slots[x]);
    var (lo, hi) := Reach(s, d.src, dst);
    ReleaseOne(s.pool, p, x, Deliver(s.vnics, d, lo, hi, 1, s.cap).1);
    assert WithRefs(p, x, 1) == p;
  }

  /** Who gets a copy, and the count of copies. */
  lemma TxDeliveries(s: SwV, x: nat, d: Desc, dst: Mac)
    requires d.slot == x
    requires forall j :: 0 <= j < |s.vnics| ==> !Has(s.vnics[j].ring, x)
    ensures var (lo, hi) := Reach(s, d.src, dst);
            var (vs, rc) := Deliver(s.vnics, d, lo, hi, 1, s.cap);
            && HandedOut(s.vnics, vs, d, s.cap, lo, hi, MAX_COPIES)
            && RefCount(vs, x) == rc - 1
            && (rc > 1 <==> exists j :: Gets(s.vnics, s.cap, d.src, lo, hi, MAX_COPIES, j))
  {
    RefCountZero(s.vnics, x);
    var (lo, hi) := Reach(s, d.src, dst);
    DeliverHandsOut(s.vnics, d, lo, hi, 1, s.cap, MAX_COPIES);
    DeliverCounts(s.vnics, d, lo, hi, 1, s.cap);
  }

  /** A free slot means the use counter is below its limit, so it does not wrap. */
  lemma LoadedPool(s: SwV, born: seq<nat>, now: nat, x: nat, tick: u32, src: u32, frame: seq<u8>)
    requires Inv(s, born, now) && x < |s.pool.slots| && s.pool.slots[x].refcnt == 0 && |frame| <= FRAME_MAX
    ensures var p := Loaded(s.pool, x, tick, frame, src);
            && s.pool.inUse < 0xFFFF && p.inUse == s.pool.inUse + 1
            && |p.slots| == |s.pool.slots| && p.slots == s.pool.slots[x := p.slots[x]]
            && p.slots[x].refcnt == 1
  {
    LiveCountUpdate(s.pool.slots, x, s.pool.slots[x].(refcnt := 1));
  }

  lemma TxIsTxOut(s: SwV, born: seq<nat>, now: nat, tick: u32, src: u32, frame: seq<u8>)
    requires Inv(s, born, now)
    requires TxRefusal(s, src, frame).None? && FirstFree(s.pool.slots) < |s.pool.slots|
    ensures var x := FirstFree(s.pool.slots);
            var p := Loaded(s.pool, x, tick, frame, src);
            Tx(s, src, frame, tick) == TxOut(s.(pool := p), DescOf(x, p.slots[x]), MacAt(frame, 0))
  {
    LearnIsNoop(s, born, now, src);
  }

  /** An admitted transmit in closed form. */
  lemma TxIs(s: SwV, born: seq<nat>, now: nat, tick: u32, src: u32, frame: seq<u8>)
    requires Inv(s, born, now)
    requires TxRefusal(s, src, frame).None? && FirstFree(s.pool.slots) < |s.pool.slots|
    ensures s.pool.inUse < 0xFFFF
    ensures var x := FirstFree(s.pool.slots);
            Tx(s, src, frame, tick) ==
            AfterTx(s, x, Loaded(s.pool, x, tick, frame, src).slots[x], MacAt(frame, 0))
  {
    var x := FirstFree(s.pool.slots);
    LoadedPool(s, born, now, x, tick, src, frame);
    TxIsTxOut(s, born, now, tick, src, frame);
    TxOutIs(s, Loaded(s.pool, x, tick, frame, src), x, MacAt(frame, 0));
  }

  /** Everything a transmit does, once the frame is admitted and a slot is free. */
  lemma TxShape(s: SwV, born: seq<nat>, now: nat, now': nat, src: u32, frame: seq<u8>)
    requires Inv(s, born, now) && now <= now'
    requires TxRefusal(s, src, frame).None? && FirstFree(s.pool.slots) < |s.pool.slots|
    ensures var (s', c) := Tx(s, src, frame, Tick(now'));
            var x, dst := FirstFree(s.pool.slots), MacAt(frame, 0);
            && |s'.pool.slots| == |s.pool.slots|
            && var f := s'.pool.slots[x];
            var d := DescOf(x, f);
            var (lo, hi) := Reach(s, src, dst);
            && StoreStep(s, s', now', x, f, d)
            && f.len == |frame| && f.src == src && f.data[..f.len] == frame
            && HandedOut(s.vnics, s'.vnics, d, s.cap, lo, hi, MAX_COPIES)
            && c == Verdict(exists j :: Gets(s.vnics, s.cap, src, lo, hi, MAX_COPIES, j), dst)
  {
    var x, dst := FirstFree(s.pool.slots), MacAt(frame, 0);
    TxIs(s, born, now, Tick(now'), src, frame);
    FreeSlotUnheld(s, born, now, x);
    TxDeliveries(s, x, DescOf(x, Loaded(s.pool, x, Tick(now'), frame, src).slots[x]), dst);
  }

  /** Dropping the scratch reference of a freshly filled slot. */
  lemma ReleaseOne(p0: PoolV, p: PoolV, x: nat, rc: u16)
    requires x < |p0.slots| == |p.slots| && p0.inUse < 0xFFFF && rc > 0
    requires p.inUse == p0.inUse + 1
    requires p.slots == p0.slots[x := p.slots[x]]
    ensures var p' := Release(WithRefs(p, x, rc), x, p.slots[x].gen).0;
            && p'.slots == p0.slots[x := p.slots[x].(refcnt := rc - 1)]
            && p'.inUse == p0.inUse + if rc > 1 then 1 else 0
  {}

  // ---------------------------------------------------------------- release

  /** VM vm gave its front frame back: one descriptor and one reference less. */
  ghost predicate ReleaseStep(s: SwV, s': SwV, vm: nat)
    requires vm < |s.vnics|
  {
    var v := s.vnics[vm];
    && v.ring != [] && v.ring[0].slot < |s.pool.slots|
    && var x := v.ring[0].slot;
    && var rc := s.pool.slots[x].refcnt;
    && rc > 0
    && s' == s.(vnics := s.vnics[vm := v.(ring := v.ring[1..], irq := v.ring[1..] != [])],
                pool := PoolV(s.pool.slots[x := s.pool.slots[x].(refcnt := rc - 1)], s'.pool.inUse))
    && s'.pool.inUse + (if rc == 1 then 1 else 0) == s.pool.inUse
  }

  lemma ReleaseShape(s: SwV, born: seq<nat>, now: nat, vm: nat)
    requires Inv(s, born, now) && vm < |s.vnics| && s.vnics[vm].open && s.vnics[vm].ring != []
    ensures var d := s.vnics[vm].ring[0];
            var (s', r) := ReleaseRx(s, vm, d.slot, d.gen);
            ReleaseStep(s, s', vm) && r == Status(Ok)
  {
    NothingStale(s, born, now, vm);
    assert VnicOk(s, born, s.vnics[vm]);
    var d := s.vnics[vm].ring[0];
    LiveCountUpdate(s.pool.slots, d.slot, s.pool.slots[d.slot].(refcnt := 0));
  }

  lemma ReleaseKeepsInv(s: SwV, s': SwV, born: seq<nat>, now: nat, vm: nat)
    requires Inv(s, born, now) && vm < |s.vnics| && ReleaseStep(s, s', vm)
    ensures Inv(s', born, now)
  {
    var q := s.vnics[vm].ring;
    var x0 := q[0].slot;
    assert VnicOk(s, born, s.vnics[vm]);
    assert Has(q, x0);
    SameAddresses(s.vnics, s'.vnics, s.fdb);
    LiveCountUpdate(s.pool.slots, x0, s'.pool.slots[x0]);
    forall x | 0 <= x < |s.pool.slots| ensures s'.pool.slots[x].refcnt == RefCount(s'.vnics, x) {
      RefCountUpdate(s.vnics, vm, s'.vnics[vm], x);
      HasTail(q, x);
    }
    forall j | 0 <= j < |s.vnics| ensures VnicOk(s', born, s'.vnics[j]) {
      ReleasedRing(s, s', born, now, vm, j);
    }
  }

  lemma ReleasedRing(s: SwV, s': SwV, born: seq<nat>, now: nat, vm: nat, j: nat)
    requires Inv(s, born, now) && vm < |s.vnics| && j < |s.vnics| && ReleaseStep(s, s', vm)
    requires forall x :: 0 <= x < |s'.pool.slots| ==> s'.pool.slots[x].refcnt == RefCount(s'.vnics, x)
    ensures VnicOk(s', born, s'.vnics[j])
  {
    assert VnicOk(s, born, s.vnics[j]);
    var x := s.vnics[vm].ring[0].slot;
    if s'.pool.slots[x].refcnt == 0 {
      RefCountZero(s'.vnics, x);
      assert !Has(s'.vnics[j].ring, x);
    }
  }

  lemma HasTail(q: seq<Desc>, x: nat)
    requires q != []
    requires forall k, l :: 0 <= k < l < |q| ==> q[k].slot != q[l].slot
    ensures Has(q[1..], x) <==> Has(q, x) && q[0].slot != x
  {
    if Has(q, x) && q[0].slot != x {
      var k :| 0 <= k < |q| && q[k].slot == x;
      assert q[1..][k - 1].slot == x;
    }
  }

  // ---------------------------------------------------------------- expiry

  /** No frame in use is 2^32 ticks old. */
  ghost predicate NoneAncient(s: SwV, born: seq<nat>, now: nat) {
    |born| == |s.pool.slots| &&
    forall x :: 0 <= x < |born| && s.pool.slots[x].refcnt != 0 ==> now < born[x] + TWO32
  }

  /** p' is p without the frames that are `timeout` or more true ticks old. */
  ghost predicate ReapsOld(p: PoolV, p': PoolV, born: seq<nat>, now: nat, timeout: u32) {
    && |born| == |p.slots| == |p'.slots|
    && forall x :: 0 <= x < |p.slots| ==>
         p'.slots[x] == if p.slots[x].refcnt != 0 && now - born[x] >= timeout
                        then p.slots[x].(refcnt := 0) else p.slots[x]
  }

  /** The 32-bit age of a frame in use is its true age, so the reaper frees the old ones. */
  lemma ReapIsByAge(p: PoolV, born: seq<nat>, now: nat, now': nat, timeout: u32)
    requires PoolOk(p, born, now) && now <= now' && timeout > 0
    requires forall x :: 0 <= x < |born| && p.slots[x].refcnt != 0 ==> now' < born[x] + TWO32
    ensures var p' := DropExpired(p, Tick(now'), timeout);
            && ReapsOld(p, p', born, now', timeout)
            && p'.inUse == LiveCount(p'.slots)
  {
    var p' := DropExpired(p, Tick(now'), timeout);
    forall x | 0 <= x < |p.slots| && p.slots[x].refcnt != 0
      ensures Aged(p.slots[x], Tick(now'), timeout) <==> now' - born[x] >= timeout
    {
      ModularAge(now', born[x]);
    }
    LiveCountReaped(p.slots, p'.slots, Tick(now'), timeout);
  }

  /** Number of leading descriptors born `timeout` or more ticks before `now`. */
  ghost function OldPrefix(q: seq<Desc>, born: seq<nat>, now: nat, timeout: u32): (n: nat)
    ensures n <= |q|
    ensures forall k :: 0 <= k < n ==> q[k].slot < |born| && now - born[q[k].slot] >= timeout
    ensures n < |q| ==> q[n].slot >= |born| || now - born[q[n].slot] < timeout
  {
    if q == [] || q[0].slot >= |born| || now - born[q[0].slot] < timeout then 0
    else 1 + OldPrefix(q[1..], born, now, timeout)
  }

  /** Births are ordered along the ring, so what the reaper freed is a prefix ... */
  lemma FreedIsPrefix(p: PoolV, p': PoolV, born: seq<nat>, now: nat, timeout: u32, q: seq<Desc>)
    requires RingOk(p, born, q) && ReapsOld(p, p', born, now, timeout)
    ensures forall k :: 0 <= k < |q| ==> (Live(p', q[k]) <==> k >= OldPrefix(q, born, now, timeout))
  {}

  /** ... and dropping stale heads drops all of it. */
  lemma {:induction false} SkipsThePrefix(p: PoolV, q: seq<Desc>, n: nat)
    requires n <= |q| && forall k :: 0 <= k < |q| ==> (Live(p, q[k]) <==> k >= n)
    ensures SkipStale(p, q) == q[n..]
  {
    if n > 0 { SkipsThePrefix(p, q[1..], n - 1); }
  }

  /** What becomes of a vnic whose frames were reaped by age. */
  ghost function Shortened(v: VnicV, born: seq<nat>, now: nat, timeout: u32): VnicV {
    var q := v.ring[OldPrefix(v.ring, born, now, timeout)..];
    v.(ring := q, irq := q != [])
  }

  /** Every VM lost the old prefix of its ring, and the pool the old frames. */
  ghost predicate ExpireStep(s: SwV, s': SwV, born: seq<nat>, now: nat, timeout: u32) {
    && s' == s.(vnics := s'.vnics, pool := s'.pool)
    && ReapsOld(s.pool, s'.pool, born, now, timeout)
    && s'.pool.inUse == LiveCount(s'.pool.slots)
    && |s'.vnics| == |s.vnics|
    && forall j :: 0 <= j < |s.vnics| ==> s'.vnics[j] == Shortened(s.vnics[j], born, now, timeout)
  }

  lemma ClearedIsShortened(p: PoolV, p': PoolV, born: seq<nat>, now: nat, timeout: u32, v: VnicV)
    requires RingOk(p, born, v.ring) && ReapsOld(p, p', born, now, timeout) && (v.irq <==> v.ring != [])
    ensures Cleared(p', v) == Shortened(v, born, now, timeout)
    ensures p' == p ==> Shortened(v, born, now, timeout) == v
  {
    FreedIsPrefix(p, p', born, now, timeout, v.ring);
    SkipsThePrefix(p', v.ring, OldPrefix(v.ring, born, now, timeout));
  }

  lemma ExpireShape(s: SwV, born: seq<nat>, now: nat, now': nat, timeout: u32)
    requires Inv(s, born, now) && now <= now' && NoneAncient(s, born, now') && timeout > 0
    ensures ExpireStep(s, Expire(s, Tick(now'), timeout), born, now', timeout)
  {
    ReapIsByAge(s.pool, born, now, now', timeout);
    ExpireByAge(s, born, Tick(now'), now', timeout);
  }

  lemma ExpireByAge(s: SwV, born: seq<nat>, tick: u32, now': nat, timeout: u32)
    requires forall j :: 0 <= j < |s.vnics| ==> VnicOk(s, born, s.vnics[j])
    requires s.pool.inUse == LiveCount(s.pool.slots) && timeout > 0
    requires ReapsOld(s.pool, DropExpired(s.pool, tick, timeout), born, now', timeout)
    requires DropExpired(s.pool, tick, timeout).inUse == LiveCount(DropExpired(s.pool, tick, timeout).slots)
    ensures ExpireStep(s, Expire(s, tick, timeout), born, now', timeout)
  {
    var s' := Expire(s, tick, timeout);
    LiveCountReaped(s.pool.slots, s'.pool.slots, tick, timeout);
    forall j | 0 <= j < |s.vnics| ensures s'.vnics[j] == Shortened(s.vnics[j], born, now', timeout) {
      ClearedIsShortened(s.pool, s'.pool, born, now', timeout, s.vnics[j]);
    }
  }

  lemma RingOkTail(p: PoolV, p': PoolV, born: seq<nat>, now: nat, timeout: u32, q: seq<Desc>)
    requires RingOk(p, born, q) && ReapsOld(p, p', born, now, timeout)
    ensures RingOk(p', born, q[OldPrefix(q, born, now, timeout)..])
  {
    FreedIsPrefix(p, p', born, now, timeout, q);
  }

  lemma HasTailWhere(p: PoolV, p': PoolV, born: seq<nat>, now: nat, timeout: u32, q: seq<Desc>, x: nat)
    requires RingOk(p, born, q) && ReapsOld(p, p', born, now, timeout)
    requires x < |p.slots|
    ensures Has(q[OldPrefix(q, born, now, timeout)..], x) <==> Has(q, x) && p'.slots[x].refcnt != 0
  {
    FreedIsPrefix(p, p', born, now, timeout, q);
    var n := OldPrefix(q, born, now, timeout);
    if Has(q[n..], x) {
      var k :| 0 <= k < |q[n..]| && q[n..][k].slot == x;
      assert Live(p', q[n + k]) && q[n + k].slot == x;
    }
    if Has(q, x) && p'.slots[x].refcnt != 0 {
      var k :| 0 <= k < |q| && q[k].slot == x;
      assert Live(p', q[k]);
      assert q[n..][k - n] == q[k];
    }
  }

  lemma ExpireCounts(s: SwV, s': SwV, born: seq<nat>, now: nat, now': nat, timeout: u32, x: nat)
    requires Inv(s, born, now) && ExpireStep(s, s', born, now', timeout) && x < |s.pool.slots|
    ensures s'.pool.slots[x].refcnt == RefCount(s'.vnics, x)
  {
    forall j | 0 <= j < |s.vnics|
      ensures Has(s'.vnics[j].ring, x) <==> Has(s.vnics[j].ring, x) && s'.pool.slots[x].refcnt != 0
    {
      assert VnicOk(s, born, s.vnics[j]);
      HasTailWhere(s.pool, s'.pool, born, now', timeout, s.vnics[j].ring, x);
    }
    if s'.pool.slots[x].refcnt == 0 {
      RefCountZero(s'.vnics, x);
    } else {
      RefCountSame(s.vnics, s'.vnics, x);
    }
  }

  lemma ExpireKeepsInv(s: SwV, s': SwV, born: seq<nat>, now: nat, now': nat, timeout: u32)
    requires Inv(s, born, now) && now <= now' && ExpireStep(s, s', born, now', timeout)
    ensures Inv(s', born, now')
  {
    SameAddresses(s.vnics, s'.vnics, s.fdb);
    forall j | 0 <= j < |s.vnics| ensures VnicOk(s', born, s'.vnics[j]) {
      assert VnicOk(s, born, s.vnics[j]);
      RingOkTail(s.pool, s'.pool, born, now', timeout, s.vnics[j].ring);
    }
    forall x | 0 <= x < |s.pool.slots| ensures s'.pool.slots[x].refcnt == RefCount(s'.vnics, x) {
      ExpireCounts(s, s', born, now, now', timeout, x);
    }
  }

  // ---------------------------------------------------------------- addresses

  /** VM j already has the address m. */
  predicate OwnsMac(vs: seq<VnicV>, j: nat, m: Mac)
    requires j < |vs|
  {
    vs[j].macSet && vs[j].mac == m
  }

  /** Under the invariant no entry is learned, so a binding can only go to a vacant entry. */
  predicate FdbFull(s: SwV) {
    F.FindKind(s.fdb, F.Vacant) == |s.fdb|
  }

  /** assign_mac decided by the addresses of the VMs alone, apart from a full table. */
  lemma AssignShape(vs: seq<VnicV>, fdb: seq<F.Entry>, vm: u32, m: Mac)
    requires FdbAgrees(vs, fdb) && vm < |vs| < TWO32 && IsLocalUnicast(m)
    requires vs[vm].macSet ==> vs[vm].mac == m
    ensures var p := F.FindKind(fdb, F.Vacant);
            F.Assign(fdb, vm, m) ==
            if vs[vm].macSet then (fdb, Ok)
            else if exists j :: 0 <= j < |vs| && OwnsMac(vs, j, m) then (fdb, DupMac)
            else if p == |fdb| then (fdb, NotReady)
            else (fdb[p := F.Entry(F.Assigned, m, vm)], Ok)
  {
    var e := F.FindMac(fdb, m);
    if vs[vm].macSet {
      FindsPinned(vs, fdb, vm);
    } else {
      NothingLearned(vs, fdb, vm);
      if e < |fdb| {
        assert EntryAgrees(vs, fdb[e]);
        assert OwnsMac(vs, fdb[e].guest, m);
      } else {
        forall j | 0 <= j < |vs| ensures !OwnsMac(vs, j, m) {
          if OwnsMac(vs, j, m) { FindsPinned(vs, fdb, j); }
        }
      }
    }
  }

  lemma NothingLearned(vs: seq<VnicV>, fdb: seq<F.Entry>, vm: u32)
    requires FdbAgrees(vs, fdb) && vm < |vs| && !vs[vm].macSet
    ensures F.FindOwner(fdb, vm) == |fdb|
    ensures F.FindKind(fdb, F.Learned) == |fdb|
  {
    var o, l := F.FindOwner(fdb, vm), F.FindKind(fdb, F.Learned);
    assert o < |fdb| ==> EntryAgrees(vs, fdb[o]);
    assert l < |fdb| ==> EntryAgrees(vs, fdb[l]);
  }

  lemma AssignKeepsInv(s: SwV, born: seq<nat>, now: nat, vm: u32, m: Mac)
    requires Inv(s, born, now)
    ensures Inv(AssignMac(s, vm, m).0, born, now)
  {
    if vm < |s.vnics| && s.vnics[vm].open && IsLocalUnicast(m) && (s.vnics[vm].macSet ==> s.vnics[vm].mac == m) {
      AssignShape(s.vnics, s.fdb, vm, m);
      var (s', c) := AssignMac(s, vm, m);
      if c == Ok {
        PinnedAgrees(s.vnics, s.fdb, vm, m);
        VnicChange(s, s', born, now, vm);
      } else {
        assert s' == s;
      }
    }
  }

  /** Changing open, mac and macSet of one vnic leaves the ring side of the invariant alone. */
  lemma VnicChange(s: SwV, s': SwV, born: seq<nat>, now: nat, vm: nat)
    requires Inv(s, born, now) && vm < |s.vnics| == |s'.vnics|
    requires s' == s.(vnics := s.vnics[vm := s'.vnics[vm]], fdb := s'.fdb)
    requires s'.vnics[vm].ring == s.vnics[vm].ring && s'.vnics[vm].irq == s.vnics[vm].irq
    requires FdbAgrees(s'.vnics, s'.fdb)
    ensures Inv(s', born, now)
  {
    forall j | 0 <= j < |s.vnics| ensures VnicOk(s', born, s'.vnics[j]) {
      assert VnicOk(s, born, s.vnics[j]);
    }
    forall x | 0 <= x < |s.pool.slots| ensures RefCount(s'.vnics, x) == RefCount(s.vnics, x) {
      RefCountSame(s.vnics, s'.vnics, x);
    }
  }

  lemma PinnedAgrees(vs: seq<VnicV>, fdb: seq<F.Entry>, vm: u32, m: Mac)
    requires FdbAgrees(vs, fdb) && vm < |vs| < TWO32 && IsLocalUnicast(m)
    requires vs[vm].macSet ==> vs[vm].mac == m
    requires F.Assign(fdb, vm, m).1 == Ok
    ensures FdbAgrees(vs[vm := vs[vm].(mac := m, macSet := true)], F.Assign(fdb, vm, m).0)
  {
    AssignShape(vs, fdb, vm, m);
    var vs', fdb' := vs[vm := vs[vm].(mac := m, macSet := true)], F.Assign(fdb, vm, m).0;
    if vs[vm].macSet {
      assert vs' == vs;
    } else {
      var p := F.FindKind(fdb, F.Vacant);
      F.AssignRefinesMap(fdb, vm, m);
      forall e | 0 <= e < |fdb'| ensures EntryAgrees(vs', fdb'[e]) {
        assert EntryAgrees(vs, fdb[e]);
      }
      forall i | 0 <= i < |vs'| && vs'[i].macSet
        ensures IsLocalUnicast(vs'[i].mac) && PinnedTo(fdb', vs'[i].mac, i)
      {
        if i == vm {
          assert fdb'[p] == F.Entry(F.Assigned, m, vm);
        } else {
          FindsPinned(vs, fdb, i);
          assert PinnedTo(fdb, vs[i].mac, i);
          assert fdb'[F.FindMac(fdb, vs[i].mac)] == fdb[F.FindMac(fdb, vs[i].mac)];
        }
      }
    }
  }

  lemma OpenKeepsInv(s: SwV, born: seq<nat>, now: nat, vm: u32)
    requires Inv(s, born, now)
    ensures Inv(Open(s, vm).0, born, now)
  {
    if vm < |s.vnics| {
      SameAddresses(s.vnics, Open(s, vm).0.vnics, s.fdb);
      VnicChange(s, Open(s, vm).0, born, now, vm);
    }
  }

  /** The VMs that have an address. */
  ghost function Addressed(vs: seq<VnicV>): set<nat> {
    set i: nat | i < |vs| && vs[i].macSet
  }

  ghost function Occupied(fdb: seq<F.Entry>): set<nat> {
    set e: nat | e < |fdb| && fdb[e].kind != F.Vacant
  }

  ghost function GuestsOf(fdb: seq<F.Entry>, es: set<nat>): set<nat>
    requires forall e :: e in es ==> e < |fdb|
  {
    set e | e in es :: fdb[e].guest as nat
  }

  /** Entries with different guests are as many as their guests. */
  lemma {:induction false} GuestsOfSize(fdb: seq<F.Entry>, es: set<nat>)
    requires forall e :: e in es ==> e < |fdb|
    requires forall e, f :: e in es && f in es && fdb[e].guest == fdb[f].guest ==> e == f
    ensures |GuestsOf(fdb, es)| == |es|
  {
    if es != {} {
      var e :| e in es;
      GuestsOfSize(fdb, es - {e});
      assert fdb[e].guest !in GuestsOf(fdb, es - {e});
      assert GuestsOf(fdb, es) == GuestsOf(fdb, es - {e}) + {fdb[e].guest as nat};
    }
  }

  /** Every addressed VM occupies one entry, and nobody else any. */
  lemma OccupiedIsAddressed(vs: seq<VnicV>, fdb: seq<F.Entry>)
    requires FdbAgrees(vs, fdb)
    ensures |Occupied(fdb)| == |Addressed(vs)|
  {
    var es := Occupied(fdb);
    forall e | e in es
      ensures fdb[e].kind == F.Assigned && fdb[e].guest < |vs| && vs[fdb[e].guest].macSet
    {
      assert EntryAgrees(vs, fdb[e]);
    }
    forall e, f | e in es && f in es && fdb[e].guest == fdb[f].guest ensures e == f {}
    GuestsOfSize(fdb, es);
    forall i | i in Addressed(vs) ensures i in GuestsOf(fdb, es) {
      FindsPinned(vs, fdb, i);
      assert F.FindMac(fdb, vs[i].mac) in es;
    }
    assert GuestsOf(fdb, es) == Addressed(vs);
  }

  /** The table is full if and only if as many VMs have an address as it has entries. */
  lemma FullMeansAllOwned(s: SwV, born: seq<nat>, now: nat)
    requires Inv(s, born, now)
    ensures FdbFull(s) <==> |Addressed(s.vnics)| >= |s.fdb|
    ensures |Addressed(s.vnics)| <= |s.fdb|
  {
    OccupiedIsAddressed(s.vnics, s.fdb);
    var n := |s.fdb|;
    SubsetSize(Occupied(s.fdb), Below(n));
    var p := F.FindKind(s.fdb, F.Vacant);
    if p < n {
      SubsetSize(Occupied(s.fdb), Below(n) - {p});
    } else {
      assert Occupied(s.fdb) == Below(n);
    }
  }

  /** Each VM needs one entry, so a table with an entry per VM never fills up. */
  lemma BigTableNeverFull(s: SwV, born: seq<nat>, now: nat, vm: nat)
    requires Inv(s, born, now) && vm < |s.vnics| && !s.vnics[vm].macSet
    requires |s.fdb| >= |s.vnics|
    ensures !FdbFull(s)
  {
    FullMeansAllOwned(s, born, now);
    NotAllAddressed(s.vnics, vm);
  }

  lemma NotAllAddressed(vs: seq<VnicV>, vm: nat)
    requires vm < |vs| && !vs[vm].macSet
    ensures |Addressed(vs)| < |vs|
  {
    var others := Below(|vs|) - {vm};
    assert |others| == |vs| - 1;
    forall j | j in Addressed(vs) ensures j in others {}
    SubsetSize(Addressed(vs), others);
  }

  /** A ring never holds a slot twice, so with a descriptor per pool slot it is never full when a
      frame has just been allocated. */
  lemma DeepRingNeverFull(s: SwV, born: seq<nat>, now: nat, vm: nat)
    requires Inv(s, born, now) && vm < |s.vnics| && s.cap >= |s.pool.slots|
    requires FirstFree(s.pool.slots) < |s.pool.slots|
    ensures |s.vnics[vm].ring| < s.cap
  {
    var q := s.vnics[vm].ring;
    assert VnicOk(s, born, s.vnics[vm]);
    var x := FirstFree(s.pool.slots);
    Pigeonhole(seq(|q|, k requires 0 <= k < |q| => q[k].slot as nat), |s.pool.slots|, x);
  }
}
