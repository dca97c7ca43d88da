/** The shared, reference-counted frame pool (src/vnet/vnet_pool.c). */
module VnetPool {
  import opened Base
  import opened VnetCodes

  const FRAME_MAX := 1536
  const BAD_SLOT: u16 := 0xFFFF

  /** Frame lengths stay within the buffer: the only writer checks the bound first. */
  type Length = x: int | 0 <= x <= FRAME_MAX
  type Buffer = s: seq<u8> | |s| == FRAME_MAX witness seq(FRAME_MAX, i => 0)

  /** One pool slot. `data` is the whole fixed-size buffer; only `len` bytes are meaningful. */
  datatype Frame = Frame(len: Length, gen: u16, refcnt: u16, src: u32, born: u32, data: Buffer)

  const FRESH := Frame(0, 0, 0, 0, 0, seq(FRAME_MAX, i => 0))

  /** The pool as a value. */
  datatype PoolV = PoolV(slots: seq<Frame>, inUse: u16)

  /** What vnet_pool_release reports: freed now, still referenced, or refused. */
  datatype Released = Freed | Held | Refused(code: Code)

  function InitPool(n: nat): PoolV {
    PoolV(seq(n, i => FRESH), 0)
  }

  function FirstFree(slots: seq<Frame>, i: nat := 0): (r: nat)
    requires i <= |slots|
    ensures i <= r <= |slots|
    ensures r < |slots| ==> slots[r].refcnt == 0
    ensures forall j :: i <= j < r ==> slots[j].refcnt != 0
    decreases |slots| - i
  {
    if i == |slots| || slots[i].refcnt == 0 then i else FirstFree(slots, i + 1)
  }

  /** Slot x taken at tick `now`: new generation, one reference, contents reset. */
  function Taken(p: PoolV, x: nat, now: u32): PoolV
    requires x < |p.slots|
  {
    var f := p.slots[x];
    PoolV(p.slots[x := Frame(0, Inc16(f.gen), 1, 0, now, f.data)], Inc16(p.inUse))
  }

  /** The slot after a frame was copied over the front of its buffer. */
  function Filled(p: PoolV, x: nat, frame: seq<u8>, src: u32): PoolV
    requires x < |p.slots| && |frame| <= FRAME_MAX
  {
    var f := p.slots[x];
    p.(slots := p.slots[x := f.(len := |frame|, src := src, data := frame + f.data[|frame|..])])
  }

  /** Does (slot, gen) name a live slot of that generation? */
  predicate IsLive(p: PoolV, slot: nat, gen: u16) {
    slot < |p.slots| && p.slots[slot].refcnt != 0 && p.slots[slot].gen == gen
  }

  function WithRefs(p: PoolV, x: nat, n: u16): PoolV
    requires x < |p.slots|
  {
    p.(slots := p.slots[x := p.slots[x].(refcnt := n)])
  }

  function Ref(p: PoolV, slot: nat, gen: u16): (PoolV, Code) {
    if slot >= |p.slots| then (p, BadArg)
    else if p.slots[slot].refcnt == 0 || p.slots[slot].gen != gen then (p, StaleCookie)
    else if p.slots[slot].refcnt == 0xFFFF then (p, BadArg)
    else (WithRefs(p, slot, p.slots[slot].refcnt + 1), Ok)
  }

  function Release(p: PoolV, slot: nat, gen: u16): (PoolV, Released) {
    if slot >= |p.slots| then (p, Refused(BadArg))
    else if p.slots[slot].gen != gen then (p, Refused(StaleCookie))
    else if p.slots[slot].refcnt == 0 then (p, Refused(DoubleRelease))
    else
      var p' := WithRefs(p, slot, p.slots[slot].refcnt - 1);
      if p.slots[slot].refcnt > 1 then (p', Held)
      else (p'.(inUse := if p.inUse > 0 then p.inUse - 1 else 0), Freed)
  }

  /** Modular age of a live slot against the timeout, as the reaper computes it on 32 bits. */
  predicate Aged(f: Frame, now: u32, timeout: u32) {
    f.refcnt != 0 && Sub32(now, f.born) >= timeout
  }

  function Reaped(f: Frame, now: u32, timeout: u32): Frame {
    if Aged(f, now, timeout) then f.(refcnt := 0) else f
  }

  function CountAged(slots: seq<Frame>, now: u32, timeout: u32): (n: nat)
    ensures n <= |slots|
  {
    if slots == [] then 0
    else CountAged(slots[..|slots| - 1], now, timeout) +
         if Aged(slots[|slots| - 1], now, timeout) then 1 else 0
  }

  function DropExpired(p: PoolV, now: u32, timeout: u32): PoolV {
    if timeout == 0 then p
    else
      var n := CountAged(p.slots, now, timeout);
      PoolV(seq(|p.slots|, i requires 0 <= i < |p.slots| => Reaped(p.slots[i], now, timeout)),
            if p.inUse > n then p.inUse - n else 0)
  }

  /** Number of slots in use. */
  function LiveCount(slots: seq<Frame>): (n: nat)
    ensures n <= |slots|
  {
    if slots == [] then 0
    else LiveCount(slots[..|slots| - 1]) + if slots[|slots| - 1].refcnt != 0 then 1 else 0
  }

  /** All slots but x are as before. */
  predicate OnlySlot(p: PoolV, p': PoolV, x: nat) {
    |p'.slots| == |p.slots| && forall y :: 0 <= y < |p.slots| && y != x ==> p'.slots[y] == p.slots[y]
  }

  /** Taking a slot, field by field: the next generation on 16 bits, one reference, born now, no contents. */
  lemma TakenDoes(p: PoolV, x: nat, now: u32)
    requires x < |p.slots|
    ensures var p', f := Taken(p, x, now), p.slots[x];
            && OnlySlot(p, p', x) && p'.inUse as int == (p.inUse + 1) % 0x1_0000
            && var f' := p'.slots[x];
               f'.refcnt == 1 && f'.gen as int == (f.gen + 1) % 0x1_0000 && f'.born == now && f'.len == f'.src == 0 && f'.data == f.data
  {}

  /** Filling it: the frame's bytes, length and source; the rest of the buffer and the references stay. */
  lemma FilledDoes(p: PoolV, x: nat, frame: seq<u8>, src: u32)
    requires x < |p.slots| && |frame| <= FRAME_MAX
    ensures var p', f := Filled(p, x, frame, src), p.slots[x];
            && OnlySlot(p, p', x) && p'.inUse == p.inUse
            && var f' := p'.slots[x];
               && f'.data[..|frame|] == frame && f'.data[|frame|..] == f.data[|frame|..] && f'.len == |frame| && f'.src == src
               && f'.refcnt == f.refcnt && f'.gen == f.gen && f'.born == f.born
  {}

  /** The cookie names a slot in use under its current generation. */
  predicate Names(p: PoolV, slot: nat, gen: u16) {
    slot < |p.slots| && p.slots[slot].gen == gen && p.slots[slot].refcnt > 0
  }

  /** A reference is added to a slot the cookie names, unless its count is full; all else is refused. */
  lemma RefDoes(p: PoolV, slot: nat, gen: u16)
    ensures var (p', c) := Ref(p, slot, gen);
            && (c == Ok <==> Names(p, slot, gen) && p.slots[slot].refcnt < 0xFFFF)
            && (c == StaleCookie <==> slot < |p.slots| && !Names(p, slot, gen))
            && (c == BadArg <==> slot >= |p.slots| || (Names(p, slot, gen) && p.slots[slot].refcnt == 0xFFFF))
            && if c != Ok then p' == p
               else OnlySlot(p, p', slot) && p'.inUse == p.inUse && p'.slots[slot] == p.slots[slot].(refcnt := p.slots[slot].refcnt + 1)
  {}

  /** A reference is dropped from a slot the cookie names; with the last one the slot is free. */
  lemma ReleaseDoes(p: PoolV, slot: nat, gen: u16)
    ensures var (p', r) := Release(p, slot, gen);
            && (r == Refused(BadArg) <==> slot >= |p.slots|)
            && (r == Refused(StaleCookie) <==> slot < |p.slots| && p.slots[slot].gen != gen)
            && (r == Refused(DoubleRelease) <==> slot < |p.slots| && p.slots[slot].gen == gen && p.slots[slot].refcnt == 0)
            && (r == Freed <==> Names(p, slot, gen) && p.slots[slot].refcnt == 1)
            && (r == Held <==> Names(p, slot, gen) && p.slots[slot].refcnt > 1)
            && if !Names(p, slot, gen) then p' == p
               else
                 && OnlySlot(p, p', slot) && p'.slots[slot] == p.slots[slot].(refcnt := p.slots[slot].refcnt - 1)
                 && p'.inUse == if r == Freed && p.inUse > 0 then p.inUse - 1 else p.inUse
  {}

  class Pool {
    const slots: array<Frame>
    var inUse: u16

    ghost predicate Valid() reads this {
      slots.Length <= 0xFFFF
    }

    ghost function V(): PoolV reads this, slots {
      PoolV(slots[..], inUse)
    }

    constructor (count: u16)
      ensures Valid() && fresh(slots) && slots.Length == count
      ensures V() == InitPool(count)
    {
      slots := new Frame[count](i => FRESH);
      inUse := 0;
      new;
      assert slots[..] == InitPool(count).slots;
    }

    method Alloc(now: u32) returns (x: u16)
      requires Valid()
      modifies this, slots
      ensures Valid()
      ensures var r := FirstFree(old(V()).slots);
              if r < slots.Length then x == r && V() == Taken(old(V()), r, now)
              else x == BAD_SLOT && V() == old(V())
    {
      for i := 0 to slots.Length
        invariant V() == old(V())
        invariant forall j :: 0 <= j < i ==> slots[j].refcnt != 0
      {
        if slots[i].refcnt == 0 {
          var f := slots[i];
          slots[i] := Frame(0, Inc16(f.gen), 1, 0, now, f.data);
          inUse := Inc16(inUse);
          x := i;
          return;
        }
      }
      x := BAD_SLOT;
    }

    method Fill(x: u16, frame: seq<u8>, src: u32)
      requires Valid() && x < slots.Length && |frame| <= FRAME_MAX
      modifies slots
      ensures Valid() && V() == Filled(old(V()), x, frame, src)
    {
      var f := slots[x];
      slots[x] := f.(len := |frame|, src := src, data := frame + f.data[|frame|..]);
    }

    method AddRef(slot: u16, gen: u16) returns (c: Code)
      requires Valid()
      modifies slots
      ensures Valid() && (V(), c) == Ref(old(V()), slot, gen)
    {
      if slot >= slots.Length { return BadArg; }
      if slots[slot].refcnt == 0 { return StaleCookie; }
      if slots[slot].gen != gen { return StaleCookie; }
      if slots[slot].refcnt == 0xFFFF { return BadArg; }
      slots[slot] := slots[slot].(refcnt := slots[slot].refcnt + 1);
      c := Ok;
    }

    method Drop(slot: u16, gen: u16) returns (r: Released)
      requires Valid()
      modifies this, slots
      ensures Valid() && (V(), r) == Release(old(V()), slot, gen)
    {
      if slot >= slots.Length { return Refused(BadArg); }
      if slots[slot].gen != gen { return Refused(StaleCookie); }
      if slots[slot].refcnt == 0 { return Refused(DoubleRelease); }
      slots[slot] := slots[slot].(refcnt := slots[slot].refcnt - 1);
      if slots[slot].refcnt == 0 {
        if inUse > 0 { inUse := inUse - 1; }
        return Freed;
      }
      r := Held;
    }

    /** vnet_pool_slot: is there a live frame behind the cookie? */
    method Live(slot: u16, gen: u16) returns (b: bool)
      requires Valid()
      ensures b == IsLive(V(), slot, gen)
    {
      b := slot < slots.Length && slots[slot].refcnt != 0 && slots[slot].gen == gen;
    }

    method Reap(now: u32, timeout: u32) returns (freed: u16)
      requires Valid()
      modifies this, slots
      ensures Valid() && V() == DropExpired(old(V()), now, timeout)
      ensures freed == if timeout == 0 then 0 else CountAged(old(V()).slots, now, timeout)
    {
      freed := 0;
      if timeout == 0 { return; }
      ghost var s0, u0 := slots[..], inUse;
      for i := 0 to slots.Length
        invariant freed == CountAged(s0[..i], now, timeout)
        invariant inUse == if u0 > freed then u0 - freed else 0
        invariant forall j :: 0 <= j < i ==> slots[j] == Reaped(s0[j], now, timeout)
        invariant forall j :: i <= j < slots.Length ==> slots[j] == s0[j]
      {
        assert s0[..i + 1][..i] == s0[..i];
        if slots[i].refcnt != 0 {
          var age := Sub32(now, slots[i].born);
          if age >= timeout {
            slots[i] := slots[i].(refcnt := 0);
            if inUse > 0 { inUse := inUse - 1; }
            freed := freed + 1;
          }
        }
      }
      assert s0[..slots.Length] == s0;
      assert slots[..] == DropExpired(PoolV(s0, u0), now, timeout).slots;
    }
  }
}
