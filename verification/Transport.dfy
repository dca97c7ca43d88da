/** The shared request and response slots of one guest (src/arch/armv8m/cmse_transport.c). */
module Transport {
  import opened Base

  type Bytes = seq<u8>

  const SLOT_DATA := 248

  /** Request slot (written by the guest), the counter value received last, and the response slot.
      A slot is a counter, a length, and SLOT_DATA bytes. */
  datatype Channel = Channel(notify: u16, len: u16, req: Bytes, last: u16, rnotify: u16, rlen: u16, resp: Bytes)

  datatype Received = NotReady | Aborted | Request(data: Bytes)

  predicate Sized(c: Channel) {
    |c.req| == SLOT_DATA && |c.resp| == SLOT_DATA
  }

  // ---------------------------------------------------------------- specification

  function InitChannel(c: Channel): Channel {
    c.(notify := 0, len := 0, last := 0, rnotify := 0, rlen := 0)
  }

  /** wt_cmse_transport_recv. */
  function Recv(c: Channel): (Channel, Received)
    requires Sized(c)
  {
    if c.notify == c.last then (c, NotReady)
    else if c.len > SLOT_DATA then (c.(last := c.notify), Aborted)
    else (c.(last := c.notify), Request(c.req[..c.len]))
  }

  /** `data` written over the start of `slot`. */
  function Over(slot: Bytes, data: Bytes): Bytes
    requires |data| <= |slot|
  {
    data + slot[|data|..]
  }

  /** wt_cmse_transport_send; false: refused, nothing written. */
  function Send(c: Channel, data: Bytes): (Channel, bool)
    requires Sized(c) && |data| < TWO16
  {
    if |data| > SLOT_DATA then (c, false)
    else (c.(resp := Over(c.resp, data), rlen := |data|, rnotify := Inc16(c.rnotify)), true)
  }

  /** The fatal response of wt_cmse_transport_signal_fault: kind and seq (bytes 2..5 of the request
      header) are mirrored between the fixed magic and the fixed rest. */
  function FatalBody(c: Channel, magic: Bytes, rest: Bytes): Bytes
    requires Sized(c) && |magic| == 2 && |rest| == 6
  {
    magic + c.req[2..6] + rest
  }

  /** The client's side: a request goes into the slot, then the counter is bumped. */
  function Ask(c: Channel, data: Bytes): Channel
    requires Sized(c) && |data| <= SLOT_DATA
  {
    c.(req := Over(c.req, data), len := |data|, notify := Inc16(c.notify))
  }

  // ---------------------------------------------------------------- exactly once, in order

  /** A run of the request side: the client asks only when its last request was received. */
  datatype Op = AskOp(data: Bytes) | RecvOp

  /** What the channel did so far: the requests the client asked, and those the server received. */
  datatype Log = Log(c: Channel, asked: seq<Bytes>, got: seq<Bytes>)

  predicate Allowed(l: Log, op: Op) {
    Sized(l.c) && (op.AskOp? ==> |op.data| <= SLOT_DATA && |l.got| == |l.asked|)
  }

  function Do(l: Log, op: Op): Log
    requires Allowed(l, op)
  {
    match op
    case AskOp(data) => Log(Ask(l.c, data), l.asked + [data], l.got)
    case RecvOp =>
      var (c, r) := Recv(l.c);
      Log(c, l.asked, if r.Request? then l.got + [r.data] else l.got)
  }

  /** Operations that are not allowed are not performed. */
  function After(l: Log, ops: seq<Op>): Log {
    if ops == [] then l
    else
      var l1, op := After(l, ops[..|ops| - 1]), ops[|ops| - 1];
      if Allowed(l1, op) then Do(l1, op) else l1
  }

  /** Everything asked has been received, except for at most one request, which is in the slot. */
  predicate InStep(l: Log) {
    && Sized(l.c) && l.c.len <= SLOT_DATA
    && if l.c.notify == l.c.last then l.got == l.asked
       else l.asked == l.got + [l.c.req[..l.c.len]]
  }

  /** Delivery is exactly once and in order for ever, through any number of wrap-arounds of the 16-bit
      counter, however often the server polls: the received requests are the asked ones, byte for
      byte, except for at most one still in the slot. */
  lemma {:induction false} DeliveredOnceInOrder(l: Log, ops: seq<Op>)
    requires InStep(l)
    ensures var l' := After(l, ops);
            && InStep(l')
            && (l'.got == l'.asked || (l'.asked != [] && l'.got == l'.asked[..|l'.asked| - 1]))
  {
    if ops != [] {
      DeliveredOnceInOrder(l, ops[..|ops| - 1]);
      var l1, op := After(l, ops[..|ops| - 1]), ops[|ops| - 1];
      if Allowed(l1, op) && op.AskOp? { assert Over(l1.c.req, op.data)[..|op.data|] == op.data; }
    }
  }

  /** Whatever the memory held, an initialised channel holds no request and no response. */
  lemma InitIsInStep(c: Channel)
    requires Sized(c)
    ensures InStep(Log(InitChannel(c), [], []))
    ensures var d := InitChannel(c);
            Recv(d) == (d, NotReady) && d.notify == d.last == d.len == d.rnotify == d.rlen == 0 && d.req == c.req && d.resp == c.resp
  {}

  /** So delivery is exactly once and in order from initialisation on, whatever the memory held. */
  lemma DeliveredFromInit(c: Channel, ops: seq<Op>)
    requires Sized(c)
    ensures var l := After(Log(InitChannel(c), [], []), ops);
            && InStep(l)
            && (l.got == l.asked || (l.asked != [] && l.got == l.asked[..|l.asked| - 1]))
  {
    InitIsInStep(c);
    DeliveredOnceInOrder(Log(InitChannel(c), [], []), ops);
  }

  /** A receive, case by case: a counter value other than the last one is a request, taken once: its bytes are
      returned if the length fits the slot. Nothing but the last value changes. */
  lemma ReceiveDoes(c: Channel)
    requires Sized(c)
    ensures var (d, r) := Recv(c);
            && (r == NotReady <==> c.notify == c.last)
            && (r == Aborted <==> c.notify != c.last && c.len > 248)
            && (r.Request? ==> r.data == c.req[..c.len])
            && d == c.(last := c.notify)
  {}

  /** The fatal response, byte by byte: 12 bytes, of which those at 2 to 5 are the request's. */
  lemma FatalMirrorsRequest(c: Channel, magic: Bytes, rest: Bytes)
    requires Sized(c) && |magic| == 2 && |rest| == 6
    ensures |FatalBody(c, magic, rest)| == 12
    ensures var (d, ok) := Send(c, FatalBody(c, magic, rest));
            && ok && d.rlen == 12 && d.rnotify as int == (c.rnotify + 1) % 0x1_0000 && |d.resp| == |c.resp|
            && d.resp[2] == c.req[2] && d.resp[3] == c.req[3] && d.resp[4] == c.req[4] && d.resp[5] == c.req[5]
            && d.resp[..2] == magic && d.resp[6..12] == rest && d.resp[12..] == c.resp[12..]
            && (d.notify, d.len, d.req, d.last) == (c.notify, c.len, c.req, c.last)
  {}

  /** A response reads back as it was sent, and the counter tells it from the one before. */
  lemma SendReadsBack(c: Channel, data: Bytes)
    requires Sized(c) && |data| <= SLOT_DATA
    ensures var (c', ok) := Send(c, data);
            && ok && Sized(c') && c'.resp[..c'.rlen] == data && c'.rnotify != c.rnotify
            && c'.resp[|data|..] == c.resp[|data|..]
            && (c'.notify, c'.len, c'.req, c'.last) == (c.notify, c.len, c.req, c.last)
  {}

  // ---------------------------------------------------------------- the context object

  class Context {
    var notify: u16
    var len: u16
    const req: array<u8>
    var last: u16
    var rnotify: u16
    var rlen: u16
    const resp: array<u8>

    ghost predicate Valid() reads this {
      req != resp && req.Length == SLOT_DATA && resp.Length == SLOT_DATA
    }

    ghost function V(): Channel reads this, req, resp {
      Channel(notify, len, req[..], last, rnotify, rlen, resp[..])
    }

    /** wt_cmse_transport_init, on slots that exist already. */
    method Init()
      requires Valid()
      modifies this
      ensures Valid() && V() == InitChannel(old(V()))
    {
      last := 0;
      notify, len := 0, 0;
      rnotify, rlen := 0, 0;
    }

    method ReceiveInto(data: array<u8>) returns (size: u16, r: Received)
      requires Valid() && data != req && data != resp && data.Length >= SLOT_DATA
      modifies this`last, data
      ensures Valid() && (V(), r) == Recv(old(V()))
      ensures r.Request? ==> size as int == |r.data| && data[..size] == r.data
      ensures !r.Request? ==> data[..] == old(data[..])
    {
      var cur := notify;
      size := 0;
      if cur == last { return size, NotReady; }
      var sz := len;
      if sz > SLOT_DATA {
        last := cur;
        return size, Aborted;
      }
      var i := 0;
      while i < sz
        invariant 0 <= i <= sz
        invariant data[..i] == req[..i]
        invariant V() == old(V())
      {
        data[i] := req[i];
        i := i + 1;
      }
      size := sz;
      last := cur;
      r := Request(data[..sz]);
    }

    method WriteResponse(data: seq<u8>)
      requires Valid() && |data| <= SLOT_DATA
      modifies resp
      ensures resp[..] == Over(old(resp[..]), data)
    {
      var i := 0;
      while i < |data|
        invariant 0 <= i <= |data|
        invariant forall k :: 0 <= k < SLOT_DATA ==> resp[k] == if k < i then data[k] else old(resp[k])
      {
        resp[i] := data[i];
        i := i + 1;
      }
    }

    method SendResponse(data: seq<u8>) returns (ok: bool)
      requires Valid() && |data| < TWO16
      modifies this`rlen, this`rnotify, resp
      ensures Valid() && (V(), ok) == Send(old(V()), data)
    {
      if |data| > SLOT_DATA { return false; }
      WriteResponse(data);
      rlen := |data|;
      rnotify := Inc16(rnotify);
      ok := true;
    }

    method SignalFault(magic: seq<u8>, rest: seq<u8>)
      requires Valid() && |magic| == 2 && |rest| == 6
      modifies this`rlen, this`rnotify, resp
      ensures Valid() && V() == Send(old(V()), FatalBody(old(V()), magic, rest)).0
    {
      var body := magic + req[2..6] + rest;
      WriteResponse(body);
      rlen := |body|;
      rnotify := Inc16(rnotify);
    }
  }
}
