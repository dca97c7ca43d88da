/** Circular descriptor ring (src/vnet/vnet_ring.c): a fixed buffer that behaves as a FIFO. */
module VnetRing {
  import opened Base
  import opened VnetCodes

  datatype Desc = Desc(slot: u16, gen: u16, len: u16, src: u32)

  lemma NextIndex(i: nat, n: nat)
    requires i < n
    ensures (i + 1) % n == if i + 1 == n then 0 else i + 1
  {}

  class Ring {
    const buf: array<Desc>
    var head: u16
    var tail: u16
    var count: u16
    ghost const id: nat  // which VM the ring belongs to

    ghost predicate Valid() reads this {
      && buf.Length <= 0xFFFF
      && count <= buf.Length
      && (buf.Length == 0 ==> head == tail == 0)
      && (buf.Length > 0 ==>
            && tail < buf.Length
            && head == if tail + count < buf.Length then tail + count else tail + count - buf.Length)
    }

    /** The queued descriptors, oldest first. */
    ghost function Q(): (q: seq<Desc>)
      requires Valid()
      reads this, buf
      ensures |q| == count
    {
      if tail + count <= buf.Length then buf[tail..tail + count]
      else buf[tail..] + buf[..tail + count - buf.Length]
    }

    constructor (capacity: u16, ghost id: nat)
      ensures Valid() && fresh(buf) && buf.Length == capacity
      ensures Q() == [] && this.id == id
    {
      buf := new Desc[capacity](i => Desc(0, 0, 0, 0));
      head, tail, count := 0, 0, 0;
      this.id := id;
    }

    method Push(d: Desc) returns (c: Code)
      requires Valid()
      modifies this, buf
      ensures Valid()
      ensures c == if buf.Length == 0 then NotReady else if old(count) >= buf.Length then QueueFull else Ok
      ensures Q() == if c == Ok then old(Q()) + [d] else old(Q())
    {
      if buf.Length == 0 { return NotReady; }
      if count >= buf.Length { return QueueFull; }
      NextIndex(head, buf.Length);
      buf[head] := d;
      head := (head + 1) % buf.Length;
      count := count + 1;
      c := Ok;
    }

    /** The undo in try_deliver_one: forget the newest descriptor. */
    method Unpush()
      requires Valid()
      modifies this
      ensures Valid()
      ensures Q() == if old(count) > 0 then old(Q())[..old(count) - 1] else old(Q())
    {
      if count > 0 {
        head := if head == 0 then buf.Length - 1 else head - 1;
        count := count - 1;
      }
    }

    method DropHead() returns (c: Code)
      requires Valid()
      modifies this
      ensures Valid()
      ensures c == if buf.Length == 0 then NotReady else if old(count) == 0 then Empty else Ok
      ensures Q() == if c == Ok then old(Q())[1..] else old(Q())
    {
      if buf.Length == 0 { return NotReady; }
      if count == 0 { return Empty; }
      NextIndex(tail, buf.Length);
      tail := (tail + 1) % buf.Length;
      count := count - 1;
      c := Ok;
    }

    method Pop() returns (c: Code, d: Desc)
      requires Valid()
      modifies this
      ensures Valid()
      ensures c == if buf.Length == 0 then NotReady else if old(count) == 0 then Empty else Ok
      ensures c == Ok ==> old(Q()) == [d] + Q()
      ensures c != Ok ==> Q() == old(Q())
    {
      c, d := Peek();
      if c == Ok { c := DropHead(); }
    }

    method Peek() returns (c: Code, d: Desc)
      requires Valid()
      ensures c == if buf.Length == 0 then NotReady else if count == 0 then Empty else Ok
      ensures c == Ok ==> d == Q()[0]
    {
      d := Desc(0, 0, 0, 0);
      if buf.Length == 0 { return NotReady, d; }
      if count == 0 { return Empty, d; }
      return Ok, buf[tail];
    }
  }
}
