/** Forwarding database (src/vnet/vnet_fdb.c): an array of entries scanned linearly,
    proved to behave as a finite map from MAC to (kind, guest). */
module VnetFdb {
  import opened Base
  import opened VnetCodes
  import opened VnetMac

  const NO_VM: u32 := 0xFFFF_FFFF

  datatype Kind = Vacant | Assigned | Learned
  datatype Entry = Entry(kind: Kind, mac: Mac, guest: u32)

  function FindMac(es: seq<Entry>, m: Mac, i: nat := 0): (r: nat)
    requires i <= |es|
    ensures i <= r <= |es|
    ensures r < |es| ==> es[r].kind != Vacant && es[r].mac == m
    ensures forall j :: i <= j < r ==> es[j].kind == Vacant || es[j].mac != m
    decreases |es| - i
  {
    if i == |es| || (es[i].kind != Vacant && es[i].mac == m) then i else FindMac(es, m, i + 1)
  }

  function FindOwner(es: seq<Entry>, g: u32, i: nat := 0): (r: nat)
    requires i <= |es|
    ensures i <= r <= |es|
    ensures r < |es| ==> es[r].kind == Assigned && es[r].guest == g
    ensures forall j :: i <= j < r ==> es[j].kind != Assigned || es[j].guest != g
    decreases |es| - i
  {
    if i == |es| || (es[i].kind == Assigned && es[i].guest == g) then i else FindOwner(es, g, i + 1)
  }

  function FindKind(es: seq<Entry>, k: Kind, i: nat := 0): (r: nat)
    requires i <= |es|
    ensures i <= r <= |es|
    ensures r < |es| ==> es[r].kind == k
    ensures forall j :: i <= j < r ==> es[j].kind != k
    decreases |es| - i
  {
    if i == |es| || es[i].kind == k then i else FindKind(es, k, i + 1)
  }

  /** Where a new binding goes: the first vacant entry, else the lowest-index learned one. */
  function Place(es: seq<Entry>): nat {
    var v := FindKind(es, Vacant);
    if v < |es| then v else FindKind(es, Learned)
  }

  function Assign(es: seq<Entry>, g: u32, m: Mac): (seq<Entry>, Code) {
    if g == NO_VM then (es, BadArg)
    else if !IsLocalUnicast(m) then (es, InvalMac)
    else
      var e, o := FindMac(es, m), FindOwner(es, g);
      if e < |es| && es[e].kind == Assigned then
        (es, if es[e].guest == g then Ok else DupMac)
      else if o < |es| && (e == |es| || e != o) then (es, DupMac)
      else if e < |es| then (es[e := es[e].(kind := Assigned, guest := g)], Ok)
      else
        var p := Place(es);
        if p == |es| then (es, NotReady) else (es[p := Entry(Assigned, m, g)], Ok)
  }

  function Learn(es: seq<Entry>, g: u32, m: Mac): (seq<Entry>, Code) {
    if g == NO_VM || IsMulticast(m) || m == ZERO_MAC then (es, BadArg)
    else
      var e := FindMac(es, m);
      if e < |es| then
        if es[e].kind == Assigned then (es, if es[e].guest == g then Ok else Spoof)
        else (es[e := es[e].(kind := Learned, guest := g)], Ok)
      else
        var p := Place(es);
        if p == |es| then (es, NotReady) else (es[p := Entry(Learned, m, g)], Ok)
  }

  function Freed(e: Entry, g: u32): Entry {
    if e.kind != Vacant && e.guest == g then Entry(Vacant, e.mac, NO_VM) else e
  }

  function Release(es: seq<Entry>, g: u32): seq<Entry> {
    seq(|es|, i requires 0 <= i < |es| => Freed(es[i], g))
  }

  function Lookup(es: seq<Entry>, m: Mac): u32 {
    if IsMulticast(m) || m == ZERO_MAC then NO_VM
    else
      var e := FindMac(es, m);
      if e == |es| then NO_VM else es[e].guest
  }

  function InitEntries(n: nat): seq<Entry> {
    seq(n, i => Entry(Vacant, ZERO_MAC, NO_VM))
  }

  class Fdb {
    const entries: array<Entry>

    ghost predicate Valid() {
      entries.Length <= 0xFFFF
    }

    ghost function V(): seq<Entry> reads entries {
      entries[..]
    }

    constructor (capacity: u16)
      ensures Valid() && fresh(entries) && entries.Length == capacity
      ensures V() == InitEntries(capacity)
    {
      entries := new Entry[capacity](i => Entry(Vacant, ZERO_MAC, NO_VM));
      new;
      assert entries[..] == InitEntries(capacity);
    }

    method ScanMac(m: Mac) returns (r: nat)
      ensures r == FindMac(V(), m)
    {
      r := 0;
      while r < entries.Length
        invariant r <= entries.Length
        invariant forall j :: 0 <= j < r ==> entries[j].kind == Vacant || entries[j].mac != m
      {
        if entries[r].kind != Vacant && entries[r].mac == m { return; }
        r := r + 1;
      }
    }

    method ScanOwner(g: u32) returns (r: nat)
      ensures r == FindOwner(V(), g)
    {
      r := 0;
      while r < entries.Length
        invariant r <= entries.Length
        invariant forall j :: 0 <= j < r ==> entries[j].kind != Assigned || entries[j].guest != g
      {
        if entries[r].kind == Assigned && entries[r].guest == g { return; }
        r := r + 1;
      }
    }

    method ScanKind(k: Kind) returns (r: nat)
      ensures r == FindKind(V(), k)
    {
      r := 0;
      while r < entries.Length
        invariant r <= entries.Length
        invariant forall j :: 0 <= j < r ==> entries[j].kind != k
      {
        if entries[r].kind == k { return; }
        r := r + 1;
      }
    }

    method AssignMac(g: u32, m: Mac) returns (c: Code)
      modifies entries
      ensures (V(), c) == Assign(old(V()), g, m)
    {
      if g == NO_VM { return BadArg; }
      if !IsLocalUnicast(m) { return InvalMac; }
      var e := ScanMac(m);
      var o := ScanOwner(g);
      if e < entries.Length && entries[e].kind == Assigned {
        if entries[e].guest == g { return Ok; }
        return DupMac;
      }
      if o < entries.Length && (e == entries.Length || e != o) { return DupMac; }
      if e < entries.Length {
        entries[e] := entries[e].(kind := Assigned, guest := g);
        return Ok;
      }
      var p := ScanKind(Vacant);
      if p == entries.Length { p := ScanKind(Learned); }
      if p == entries.Length { return NotReady; }
      entries[p] := Entry(Assigned, m, g);
      c := Ok;
    }

    method LearnMac(g: u32, m: Mac) returns (c: Code)
      modifies entries
      ensures (V(), c) == Learn(old(V()), g, m)
    {
      if g == NO_VM || IsMulticast(m) || m == ZERO_MAC { return BadArg; }
      var e := ScanMac(m);
      if e < entries.Length {
        if entries[e].kind == Assigned {
          if entries[e].guest == g { return Ok; }
          return Spoof;
        }
        entries[e] := entries[e].(kind := Learned, guest := g);
        return Ok;
      }
      var p := ScanKind(Vacant);
      if p == entries.Length { p := ScanKind(Learned); }
      if p == entries.Length { return NotReady; }
      entries[p] := Entry(Learned, m, g);
      c := Ok;
    }

    method ReleaseGuest(g: u32)
      modifies entries
      ensures V() == Release(old(V()), g)
    {
      for i := 0 to entries.Length
        invariant forall j :: 0 <= j < i ==> entries[j] == Freed(old(V())[j], g)
        invariant forall j :: i <= j < entries.Length ==> entries[j] == old(V())[j]
      {
        if entries[i].kind != Vacant && entries[i].guest == g {
          entries[i] := Entry(Vacant, entries[i].mac, NO_VM);
        }
      }
    }

    method Find(m: Mac) returns (g: u32)
      ensures g == Lookup(V(), m)
    {
      if IsMulticast(m) || m == ZERO_MAC { return NO_VM; }
      var e := ScanMac(m);
      if e == entries.Length { return NO_VM; }
      g := entries[e].guest;
    }
  }

  // ---------------------------------------------------------------- the map it stands for

  datatype Binding = Binding(kind: Kind, guest: u32)

  /** No MAC in two entries, no guest with two assigned entries. */
  ghost predicate WellFormed(es: seq<Entry>) {
    && (forall i, j :: 0 <= i < j < |es| && es[i].kind != Vacant && es[j].kind != Vacant ==>
          es[i].mac != es[j].mac)
    && (forall i, j :: 0 <= i < j < |es| && es[i].kind == Assigned && es[j].kind == Assigned ==>
          es[i].guest != es[j].guest)
  }

  ghost function Macs(es: seq<Entry>): set<Mac> {
    set i | 0 <= i < |es| && es[i].kind != Vacant :: es[i].mac
  }

  ghost function BindingOf(es: seq<Entry>, i: nat): Binding
    requires i < |es|
  {
    Binding(es[i].kind, es[i].guest)
  }

  /** The finite map the array stands for. */
  ghost function Table(es: seq<Entry>): map<Mac, Binding> {
    map m | m in Macs(es) && FindMac(es, m) < |es| :: BindingOf(es, FindMac(es, m))
  }

  lemma TableAt(es: seq<Entry>, i: nat)
    requires WellFormed(es) && i < |es| && es[i].kind != Vacant
    ensures es[i].mac in Table(es) && Table(es)[es[i].mac] == Binding(es[i].kind, es[i].guest)
  {
    var m := es[i].mac;
    assert m in Macs(es);
    assert FindMac(es, m) == i;
  }

  /** A map that agrees with every entry and has no other key is the table. */
  lemma TableIs(es: seq<Entry>, t: map<Mac, Binding>)
    requires WellFormed(es)
    requires forall i :: 0 <= i < |es| && es[i].kind != Vacant ==>
               es[i].mac in t && t[es[i].mac] == BindingOf(es, i)
    requires forall m :: m in t ==> FindMac(es, m) < |es|
    ensures Table(es) == t
  {
    forall m | m in t ensures m in Table(es) && Table(es)[m] == t[m] {
      TableAt(es, FindMac(es, m));
    }
    forall m | m in Table(es) ensures m in t {
      assert FindMac(es, m) < |es|;
    }
  }

  lemma TableFind(es: seq<Entry>, m: Mac)
    requires WellFormed(es)
    ensures var e := FindMac(es, m);
            if e < |es| then m in Table(es) && Table(es)[m] == Binding(es[e].kind, es[e].guest)
            else m !in Table(es)
  {
    var e := FindMac(es, m);
    if e < |es| { TableAt(es, e); }
  }

  /** The first-match scan is map lookup. */
  lemma LookupIsMapLookup(es: seq<Entry>, m: Mac)
    requires WellFormed(es)
    ensures Lookup(es, m) ==
            if !IsMulticast(m) && m != ZERO_MAC && m in Table(es) then Table(es)[m].guest else NO_VM
  {
    TableFind(es, m);
  }

  /** Writing a binding over entry p when no other entry carries its MAC. */
  lemma TableWrite(es: seq<Entry>, p: nat, e: Entry)
    requires WellFormed(es) && p < |es| && e.kind != Vacant
    requires forall j :: 0 <= j < |es| && j != p && es[j].kind != Vacant ==> es[j].mac != e.mac
    requires e.kind == Assigned ==>
               forall j :: 0 <= j < |es| && j != p && es[j].kind == Assigned ==> es[j].guest != e.guest
    ensures WellFormed(es[p := e])
    ensures Table(es[p := e]) ==
            (Table(es) - (if es[p].kind == Vacant then {} else {es[p].mac}))[e.mac := Binding(e.kind, e.guest)]
  {
    var es' := es[p := e];
    var gone := if es[p].kind == Vacant then {} else {es[p].mac};
    var t := (Table(es) - gone)[e.mac := Binding(e.kind, e.guest)];
    forall i | 0 <= i < |es'| && es'[i].kind != Vacant
      ensures es'[i].mac in t && t[es'[i].mac] == BindingOf(es', i)
    {
      if i != p { TableAt(es, i); }
    }
    forall m | m in t ensures FindMac(es', m) < |es'| {
      if m != e.mac {
        var i := FindMac(es, m);
        if es[p].kind != Vacant { TableAt(es, p); }
        assert es'[i] == es[i];
      } else {
        assert es'[p] == e;
      }
    }
    TableIs(es', t);
  }

  /** The binding that a full table gives up for a new MAC: always a learned one. */
  ghost function Evicted(es: seq<Entry>, m: Mac): set<Mac> {
    var v, l := FindKind(es, Vacant), FindKind(es, Learned);
    if FindMac(es, m) == |es| == v && l < |es| then {es[l].mac} else {}
  }

  /** A binding for m can be stored without touching an assigned entry. */
  ghost predicate HasRoom(es: seq<Entry>, m: Mac) {
    FindMac(es, m) < |es| || exists i :: 0 <= i < |es| && es[i].kind != Assigned
  }

  lemma PlaceIsRoom(es: seq<Entry>, m: Mac)
    requires FindMac(es, m) == |es|
    ensures Place(es) < |es| <==> HasRoom(es, m)
    ensures Place(es) < |es| ==> es[Place(es)].kind != Assigned
    ensures Evicted(es, m) == if Place(es) < |es| && es[Place(es)].kind == Learned then {es[Place(es)].mac} else {}
  {}

  ghost predicate Owns(es: seq<Entry>, g: u32) {
    exists m :: m in Table(es) && Table(es)[m] == Binding(Assigned, g)
  }

  lemma OwnsFind(es: seq<Entry>, g: u32)
    requires WellFormed(es)
    ensures Owns(es, g) <==> FindOwner(es, g) < |es|
  {
    var o := FindOwner(es, g);
    if o < |es| {
      TableAt(es, o);
    } else {
      forall m | m in Table(es) ensures Table(es)[m] != Binding(Assigned, g) {
        TableFind(es, m);
      }
    }
  }

  lemma Overwrite(t: map<Mac, Binding>, m: Mac, b: Binding)
    ensures (t - {m})[m := b] == (t - {})[m := b]
  {}

  /** assign and learn store a binding for an unpinned MAC the same way. */
  lemma StoreRefinesMap(es: seq<Entry>, k: Kind, g: u32, m: Mac)
    requires WellFormed(es) && k != Vacant
    requires FindMac(es, m) < |es| ==> es[FindMac(es, m)].kind == Learned
    requires k == Assigned ==> FindOwner(es, g) == |es|
    ensures var e := FindMac(es, m);
            var p := if e < |es| then e else Place(es);
            && (p < |es| <==> HasRoom(es, m))
            && (p < |es| ==>
                  && WellFormed(es[p := Entry(k, m, g)])
                  && Table(es[p := Entry(k, m, g)]) == (Table(es) - Evicted(es, m))[m := Binding(k, g)])
  {
    var e := FindMac(es, m);
    if e < |es| {
      TableWrite(es, e, Entry(k, m, g));
      Overwrite(Table(es), m, Binding(k, g));
    } else {
      PlaceIsRoom(es, m);
      var p := Place(es);
      if p < |es| { TableWrite(es, p, Entry(k, m, g)); }
    }
  }

  /** assign: succeeds exactly when the pair is already there, or the MAC is not pinned, the guest
      owns nothing and there is room; then the map gains the pinned pair and loses at most one
      learned one. */
  lemma AssignRefinesMap(es: seq<Entry>, g: u32, m: Mac)
    requires WellFormed(es)
    ensures var (es', c) := Assign(es, g, m);
            var t := Table(es);
            var pinned := m in t && t[m].kind == Assigned;
            && WellFormed(es')
            && (c == Ok <==>
                  && g != NO_VM && IsLocalUnicast(m)
                  && ((pinned && t[m].guest == g) || (!pinned && !Owns(es, g) && HasRoom(es, m))))
            && (c != Ok || pinned ==> es' == es)
            && (c == Ok && !pinned ==> Table(es') == (t - Evicted(es, m))[m := Binding(Assigned, g)])
  {
    if g != NO_VM && IsLocalUnicast(m) {
      TableFind(es, m);
      OwnsFind(es, g);
      var e := FindMac(es, m);
      if FindOwner(es, g) == |es| && (e < |es| ==> es[e].kind == Learned) {
        StoreRefinesMap(es, Assigned, g, m);
      }
    }
  }

  /** learn: never touches a pinned pair, and is refused for a MAC pinned to someone else. */
  lemma LearnRefinesMap(es: seq<Entry>, g: u32, m: Mac)
    requires WellFormed(es)
    ensures var (es', c) := Learn(es, g, m);
            var t := Table(es);
            var pinned := m in t && t[m].kind == Assigned;
            && WellFormed(es')
            && (c == Spoof <==> g != NO_VM && !IsMulticast(m) && m != ZERO_MAC && pinned && t[m].guest != g)
            && (c == Ok <==> g != NO_VM && !IsMulticast(m) && m != ZERO_MAC &&
                             (if pinned then t[m].guest == g else HasRoom(es, m)))
            && (c != Ok || pinned ==> es' == es)
            && (c == Ok && !pinned ==> Table(es') == (t - Evicted(es, m))[m := Binding(Learned, g)])
  {
    TableFind(es, m);
    var e := FindMac(es, m);
    if g != NO_VM && !IsMulticast(m) && m != ZERO_MAC && (e < |es| ==> es[e].kind == Learned) {
      StoreRefinesMap(es, Learned, g, m);
    }
  }

  /** m is bound to a guest other than g for good. */
  ghost predicate PinnedElsewhere(es: seq<Entry>, m: Mac, g: u32) {
    m in Table(es) && Table(es)[m].kind == Assigned && Table(es)[m].guest != g
  }

  /** The refusals of assign, code by code. */
  lemma AssignRefusals(es: seq<Entry>, g: u32, m: Mac)
    requires WellFormed(es)
    ensures var c, may := Assign(es, g, m).1, g != NO_VM && m.b0 % 4 == 2;
            var mine := m in Table(es) && Table(es)[m] == Binding(Assigned, g);
            && (c == BadArg <==> g == NO_VM)
            && (c == InvalMac <==> g != NO_VM && m.b0 % 4 != 2)
            && (c == DupMac <==> may && !mine && (PinnedElsewhere(es, m, g) || Owns(es, g)))
            && (c == NotReady <==> may && !mine && !PinnedElsewhere(es, m, g) && !Owns(es, g) && !HasRoom(es, m))
            && (c == Ok || c == BadArg || c == InvalMac || c == DupMac || c == NotReady)
  {
    TableFind(es, m);
    OwnsFind(es, g);
    if FindMac(es, m) == |es| { PlaceIsRoom(es, m); }
  }

  /** The refusals of learn. */
  lemma LearnRefusals(es: seq<Entry>, g: u32, m: Mac)
    requires WellFormed(es)
    ensures var c, may := Learn(es, g, m).1, g != NO_VM && m.b0 % 2 == 0 && m != ZERO_MAC;
            && (c == BadArg <==> !may)
            && (c == Spoof <==> may && PinnedElsewhere(es, m, g))
            && (c == NotReady <==> may && !(m in Table(es) && Table(es)[m].kind == Assigned) && !HasRoom(es, m))
            && (c == Ok || c == BadArg || c == Spoof || c == NotReady)
  {
    TableFind(es, m);
    if FindMac(es, m) == |es| { PlaceIsRoom(es, m); }
  }

  ghost function WithoutGuest(t: map<Mac, Binding>, g: u32): map<Mac, Binding> {
    map m | m in t && t[m].guest != g :: t[m]
  }

  lemma ReleaseKeepsWellFormed(es: seq<Entry>, g: u32)
    requires WellFormed(es)
    ensures WellFormed(Release(es, g))
  {}

  /** release: exactly the bindings of that guest go, pinned and learned. */
  lemma ReleaseRefinesMap(es: seq<Entry>, g: u32)
    requires WellFormed(es)
    ensures Table(Release(es, g)) == WithoutGuest(Table(es), g)
  {
    var es', t := Release(es, g), WithoutGuest(Table(es), g);
    ReleaseKeepsWellFormed(es, g);
    forall i | 0 <= i < |es'| && es'[i].kind != Vacant
      ensures es'[i].mac in t && t[es'[i].mac] == BindingOf(es', i)
    {
      assert es'[i] == es[i];
      TableAt(es, i);
    }
    forall m | m in t ensures FindMac(es', m) < |es'| {
      TableFind(es, m);
      assert es'[FindMac(es, m)] == es[FindMac(es, m)];
    }
    TableIs(es', t);
  }

  // ---------------------------------------------------------------- whole runs

  datatype Op = AssignOp(g: u32, m: Mac) | LearnOp(g: u32, m: Mac) | ReleaseOp(g: u32)

  function Step(es: seq<Entry>, op: Op): seq<Entry> {
    match op
    case AssignOp(g, m) => Assign(es, g, m).0
    case LearnOp(g, m) => Learn(es, g, m).0
    case ReleaseOp(g) => Release(es, g)
  }

  function Run(es: seq<Entry>, ops: seq<Op>): seq<Entry> {
    if ops == [] then es else Step(Run(es, ops[..|ops| - 1]), ops[|ops| - 1])
  }

  ghost predicate Pinned(es: seq<Entry>, m: Mac, g: u32) {
    m in Table(es) && Table(es)[m] == Binding(Assigned, g)
  }

  lemma StepKeepsPinned(es: seq<Entry>, op: Op, m: Mac, g: u32)
    requires WellFormed(es)
    ensures WellFormed(Step(es, op))
    ensures Pinned(es, m, g) && op != ReleaseOp(g) ==> Pinned(Step(es, op), m, g)
  {
    match op
    case AssignOp(g', m') => AssignRefinesMap(es, g', m'); EvictedIsLearned(es, m');
    case LearnOp(g', m') => LearnRefinesMap(es, g', m'); EvictedIsLearned(es, m');
    case ReleaseOp(g') => ReleaseKeepsWellFormed(es, g'); ReleaseRefinesMap(es, g');
  }

  /** In every run no MAC has two entries and no guest two pinned ones; a pinned pair survives
      everything but the release of its own guest. */
  lemma {:induction false} PinnedStays(es: seq<Entry>, ops: seq<Op>, m: Mac, g: u32)
    requires WellFormed(es)
    ensures WellFormed(Run(es, ops))
    ensures Pinned(es, m, g) && ReleaseOp(g) !in ops ==> Pinned(Run(es, ops), m, g)
  {
    if ops != [] {
      var before := ops[..|ops| - 1];
      PinnedStays(es, before, m, g);
      StepKeepsPinned(Run(es, before), ops[|ops| - 1], m, g);
    }
  }

  lemma EvictedIsLearned(es: seq<Entry>, m: Mac)
    requires WellFormed(es)
    ensures forall v :: v in Evicted(es, m) ==> v in Table(es) && Table(es)[v].kind == Learned
  {
    forall v | v in Evicted(es, m) ensures v in Table(es) && Table(es)[v].kind == Learned {
      TableAt(es, FindKind(es, Learned));
    }
  }

  /** The table starts empty, so the two run facts hold of everything the service ever does. */
  lemma EmptyTable(n: nat)
    ensures WellFormed(InitEntries(n)) && Table(InitEntries(n)) == map[]
  {
    assert Macs(InitEntries(n)) == {};
  }

  // ---------------------------------------------------------------- which learned entry is evicted

  /** Learning only, of addresses that can be learned, known ones included. */
  ghost predicate LearnsOnly(ops: seq<Op>) {
    forall k :: 0 <= k < |ops| ==> Learns(ops[k])
  }

  predicate Learns(op: Op) {
    op.LearnOp? && op.g != NO_VM && !IsMulticast(op.m) && op.m != ZERO_MAC
  }

  function EntryOf(op: Op): Entry {
    if op.LearnOp? then Entry(Learned, op.m, op.g) else Entry(Vacant, ZERO_MAC, NO_VM)
  }

  /** The last time address m was learned, -1 for never. */
  function LastLearn(ops: seq<Op>, m: Mac): (k: int)
    ensures -1 <= k < |ops|
    ensures k >= 0 ==> ops[k].LearnOp? && ops[k].m == m
    ensures forall j :: k < j < |ops| ==> !(ops[j].LearnOp? && ops[j].m == m)
  {
    if ops == [] then -1
    else
      var n := |ops| - 1;
      if ops[n].LearnOp? && ops[n].m == m then n else LastLearn(ops[..n], m)
  }

  lemma LastLearnIs(ops: seq<Op>, m: Mac, k: nat)
    requires k < |ops| && ops[k].LearnOp? && ops[k].m == m
    requires forall j :: k < j < |ops| ==> !(ops[j].LearnOp? && ops[j].m == m)
    ensures LastLearn(ops, m) == k
  {}

  /** The entry a learning operation writes. */
  function Written(es: seq<Entry>, m: Mac): nat {
    if FindMac(es, m) < |es| then FindMac(es, m) else Place(es)
  }

  /** The last operation of a learning run that wrote entry i, -1 for none. */
  function WrittenAt(n: nat, ops: seq<Op>, i: nat): int {
    if ops == [] then -1
    else
      var k := |ops| - 1;
      if ops[k].LearnOp? && Written(Run(InitEntries(n), ops[..k]), ops[k].m) == i then k
      else WrittenAt(n, ops[..k], i)
  }

  /** The entries in use come first, and each was written last when its address was learned last. */
  ghost predicate HoldsLast(es: seq<Entry>, n: nat, ops: seq<Op>) {
    && |es| == n && WellFormed(es)
    && (forall i :: 0 <= i < n ==> es[i].kind != Assigned)
    && (forall i, j :: 0 <= i < j < n && es[j].kind == Learned ==> es[i].kind == Learned)
    && forall i :: 0 <= i < n && es[i].kind == Learned ==> HeldSince(es[i], n, ops, i)
  }

  ghost predicate HeldSince(e: Entry, n: nat, ops: seq<Op>, i: nat) {
    var k := LastLearn(ops, e.mac);
    0 <= k < |ops| && e == EntryOf(ops[k]) && WrittenAt(n, ops, i) == k
  }

  lemma LearnWrites(es: seq<Entry>, op: Op)
    requires |es| > 0 && Learns(op)
    requires forall i :: 0 <= i < |es| ==> es[i].kind != Assigned
    ensures Written(es, op.m) < |es|
    ensures Step(es, op) == es[Written(es, op.m) := EntryOf(op)]
  {
    assert es[0].kind == Vacant || es[0].kind == Learned;
  }

  lemma HoldsLastStep(n: nat, ops: seq<Op>, op: Op)
    requires n > 0 && Learns(op) && HoldsLast(Run(InitEntries(n), ops), n, ops)
    ensures HoldsLast(Run(InitEntries(n), ops + [op]), n, ops + [op])
  {
    var es, all := Run(InitEntries(n), ops), ops + [op];
    assert all[..|ops|] == ops && all[|ops|] == op;
    var p := Written(es, op.m);
    LearnWrites(es, op);
    var es' := es[p := EntryOf(op)];
    assert Run(InitEntries(n), all) == es';
    forall i | 0 <= i < n && es'[i].kind == Learned ensures HeldSince(es'[i], n, all, i) {
      if i == p {
        LastLearnIs(all, op.m, |ops|);
      } else {
        assert HeldSince(es[i], n, ops, i);
        assert es[i].mac != op.m;
      }
    }
  }

  /** Over every learning run from the empty table, repeated addresses included, each entry in use
      holds what the last operation on its address learned, and has not been written since. */
  lemma {:induction false} EntriesHoldLast(n: nat, ops: seq<Op>)
    requires n > 0 && LearnsOnly(ops)
    ensures HoldsLast(Run(InitEntries(n), ops), n, ops)
  {
    if ops != [] {
      var k := |ops| - 1;
      EntriesHoldLast(n, ops[..k]);
      assert Learns(ops[k]);
      assert ops[..k] + [ops[k]] == ops;
      HoldsLastStep(n, ops[..k], ops[k]);
    }
  }

  ghost predicate Full(es: seq<Entry>) {
    forall i :: 0 <= i < |es| ==> es[i].kind == Learned
  }

  /** Entry 0 was written before every other. */
  ghost predicate FirstIsOldest(n: nat, ops: seq<Op>) {
    forall i: nat :: 0 < i < n ==> WrittenAt(n, ops, 0) < WrittenAt(n, ops, i)
  }

  /** Its address was learned last before that of every other. */
  ghost predicate LearnedLongestAgo(es: seq<Entry>, ops: seq<Op>) {
    forall i :: 0 < i < |es| ==> LastLearn(ops, es[0].mac) < LastLearn(ops, es[i].mac)
  }

  /** The scan named after the oldest learned entry takes the lowest index. After any learning run, a
      new address in a full table evicts entry 0, and that is the binding written longest ago if and
      only if the last learning of its address came before that of every other stored address. */
  lemma EvictsOldestIff(n: nat, ops: seq<Op>, g: u32, m: Mac)
    requires n > 0 && LearnsOnly(ops) && Learns(LearnOp(g, m))
    ensures var es := Run(InitEntries(n), ops);
            && |es| == n
            && (Full(es) && FindMac(es, m) == n ==>
                  && Learn(es, g, m).0 == es[0 := Entry(Learned, m, g)]
                  && (FirstIsOldest(n, ops) <==> LearnedLongestAgo(es, ops)))
  {
    EntriesHoldLast(n, ops);
    var es := Run(InitEntries(n), ops);
    LearnWrites(es, LearnOp(g, m));
    if Full(es) {
      forall i | 0 <= i < n ensures WrittenAt(n, ops, i) == LastLearn(ops, es[i].mac) {
        assert HeldSince(es[i], n, ops, i);
      }
    }
  }

  /** Once a table is full of learned entries, learning never gives up any of them but the first. */
  lemma {:induction false} OnlyTheFirstIsEvicted(es: seq<Entry>, ops: seq<Op>)
    requires |es| > 0 && Full(es) && LearnsOnly(ops)
    ensures var es' := Run(es, ops);
            && |es'| == |es| && Full(es')
            && forall i :: 0 < i < |es| ==> es'[i].mac == es[i].mac
  {
    if ops != [] {
      var k := |ops| - 1;
      OnlyTheFirstIsEvicted(es, ops[..k]);
      assert Learns(ops[k]);
      LearnWrites(Run(es, ops[..k]), ops[k]);
    }
  }

  /** Learning of addresses never seen before. */
  ghost predicate NewAddresses(ops: seq<Op>) {
    LearnsOnly(ops) && forall k, l :: 0 <= k < l < |ops| ==> ops[k].m != ops[l].m
  }

  /** The operation whose binding entry i holds: the entries fill up in order, after which every new
      binding lands in entry 0. */
  function LearnedBy(n: nat, i: nat, count: nat): nat {
    if i == 0 && count > n then count - 1 else i
  }

  ghost predicate FilledBy(es: seq<Entry>, n: nat, ops: seq<Op>) {
    && |es| == n
    && forall i :: 0 <= i < n ==>
         if i < |ops| then es[i] == EntryOf(ops[LearnedBy(n, i, |ops|)]) else es[i].kind == Vacant
  }

  /** A new address in a table that learning alone has filled so far. */
  lemma LearnsNew(es: seq<Entry>, n: nat, ops: seq<Op>, op: Op)
    requires n > 0 && NewAddresses(ops + [op]) && FilledBy(es, n, ops)
    ensures Step(es, op) == es[if |ops| < n then |ops| else 0 := EntryOf(op)]
  {
    var all := ops + [op];
    assert forall k :: 0 <= k < |ops| ==> all[k] == ops[k];
    assert all[|ops|] == op;
    assert FindMac(es, op.m) == n;
    if |ops| < n {
      assert es[|ops|].kind == Vacant;
      assert forall i :: 0 <= i < |ops| ==> es[i].kind == Learned;
    }
  }

  lemma {:induction false} LearnedInOrder(n: nat, ops: seq<Op>)
    requires n > 0 && NewAddresses(ops)
    ensures FilledBy(Run(InitEntries(n), ops), n, ops)
  {
    if ops != [] {
      var m := |ops| - 1;
      LearnedInOrder(n, ops[..m]);
      assert ops[..m] + [ops[m]] == ops;
      LearnsNew(Run(InitEntries(n), ops[..m]), n, ops[..m], ops[m]);
    }
  }

  /** When no address is ever learned twice, the binding evicted by the next new address is the oldest
      one if and only if nothing was evicted before (or the table has one entry); from then on it is
      always the newest. */
  lemma EvictsOldestOnce(n: nat, ops: seq<Op>, g: u32, m: Mac)
    requires n > 0 && NewAddresses(ops + [LearnOp(g, m)]) && |ops| >= n
    ensures var es := Run(InitEntries(n), ops);
            var from := LearnedBy(n, 0, |ops|);
            && |es| == n && Learn(es, g, m).0 == es[0 := Entry(Learned, m, g)]
            && es[0] == EntryOf(ops[from])
            && ((forall i :: 0 <= i < n ==> from <= LearnedBy(n, i, |ops|)) <==> |ops| == n || n == 1)
  {
    var all := ops + [LearnOp(g, m)];
    assert forall k :: 0 <= k < |ops| ==> all[k] == ops[k];
    LearnedInOrder(n, ops);
    LearnsNew(Run(InitEntries(n), ops), n, ops, LearnOp(g, m));
    if n > 1 { assert LearnedBy(n, 1, |ops|) == 1; }
  }

  const MAC_1 := Mac(2, 0, 0, 0, 0, 1)
  const MAC_2 := Mac(2, 0, 0, 0, 0, 2)
  const MAC_3 := Mac(2, 0, 0, 0, 0, 3)
  const MAC_4 := Mac(2, 0, 0, 0, 0, 4)

  /** With a known address learned again, the very first eviction takes the newest binding. */
  lemma EvictsTheNewest()
    ensures var ops := [LearnOp(1, MAC_1), LearnOp(2, MAC_2), LearnOp(3, MAC_1)];
            && Run(InitEntries(2), ops) == [Entry(Learned, MAC_1, 3), Entry(Learned, MAC_2, 2)]
            && Run(InitEntries(2), ops + [LearnOp(4, MAC_3)]) ==
               [Entry(Learned, MAC_3, 4), Entry(Learned, MAC_2, 2)]
  {
    var o1, o2, o3, o4 := LearnOp(1, MAC_1), LearnOp(2, MAC_2), LearnOp(3, MAC_1), LearnOp(4, MAC_3);
    var e0 := InitEntries(2);
    var e1 := [Entry(Learned, MAC_1, 1), e0[1]];
    var e2 := [Entry(Learned, MAC_1, 1), Entry(Learned, MAC_2, 2)];
    var e3 := [Entry(Learned, MAC_1, 3), Entry(Learned, MAC_2, 2)];
    assert Run(e0, []) == e0;
    assert Step(e0, o1) == e1;
    assert [o1][..0] == [] && Run(e0, [o1]) == e1;
    assert FindMac(e1, MAC_2) == 2 && FindKind(e1, Vacant) == 1;
    assert Step(e1, o2) == e2;
    assert [o1, o2][..1] == [o1] && Run(e0, [o1, o2]) == e2;
    assert Step(e2, o3) == e3;
    assert [o1, o2, o3][..2] == [o1, o2] && Run(e0, [o1, o2, o3]) == e3;
    assert FindMac(e3, MAC_3) == 2 && FindKind(e3, Vacant) == 2;
    assert ([o1, o2, o3] + [o4])[..3] == [o1, o2, o3];
  }

  /** The same after a release: the third binding is evicted by the fourth, the older second stays. */
  lemma EvictsTheYounger()
    ensures Run(InitEntries(2), [LearnOp(1, MAC_1), LearnOp(2, MAC_2), ReleaseOp(1), LearnOp(1, MAC_3), LearnOp(2, MAC_4)]) ==
            [Entry(Learned, MAC_4, 2), Entry(Learned, MAC_2, 2)]
  {
    var o1, o2, o3, o4, o5 := LearnOp(1, MAC_1), LearnOp(2, MAC_2), ReleaseOp(1), LearnOp(1, MAC_3), LearnOp(2, MAC_4);
    var e0 := InitEntries(2);
    var e1 := [Entry(Learned, MAC_1, 1), e0[1]];
    var e2 := [Entry(Learned, MAC_1, 1), Entry(Learned, MAC_2, 2)];
    var e3 := [Entry(Vacant, MAC_1, NO_VM), Entry(Learned, MAC_2, 2)];
    var e4 := [Entry(Learned, MAC_3, 1), Entry(Learned, MAC_2, 2)];
    assert Run(e0, []) == e0;
    assert Step(e0, o1) == e1;
    assert [o1][..0] == [] && Run(e0, [o1]) == e1;
    assert FindMac(e1, MAC_2) == 2 && FindKind(e1, Vacant) == 1;
    assert Step(e1, o2) == e2;
    assert [o1, o2][..1] == [o1] && Run(e0, [o1, o2]) == e2;
    assert Step(e2, o3) == e3;
    assert [o1, o2, o3][..2] == [o1, o2] && Run(e0, [o1, o2, o3]) == e3;
    assert FindMac(e3, MAC_3) == 2;
    assert Step(e3, o4) == e4;
    assert [o1, o2, o3, o4][..3] == [o1, o2, o3] && Run(e0, [o1, o2, o3, o4]) == e4;
    assert FindMac(e4, MAC_4) == 2 && FindKind(e4, Vacant) == 2;
    assert [o1, o2, o3, o4, o5][..4] == [o1, o2, o3, o4];
  }
}
