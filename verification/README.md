# Verification models of the wolfTrust separation kernel

These Dafny modules model the parts of the repository in which several data structures, or several
execution contexts, have to agree, and prove what they promise together. Code that updates state in
place is modelled by classes over arrays and index-linked lists; each method is proved equal to a
function on values, and the theorems are about those functions and about all their runs.

| files | what they model |
|---|---|
| `VnetPool`, `VnetRing`, `VnetFdb`, `VnetSwitch` | the virtual Ethernet switch: frame pool, descriptor rings, forwarding table, and the switch calls |
| `VnetInvariant`, `VnetFifo`, `VnetRuns`, `VnetCookies`, `VnetAnswers` | its global invariant, the simple system it refines (one FIFO of private frame copies per VM), theorems over all runs, and every answer in terms of the frame's bytes |
| `Coroutine`, `Mutex` | the intrusive run queue, preemption and faults; the sleep mutex with direct hand-off |
| `Monitor` | guest states, cyclic choice, restart back-off and restart limit, timer and fault entries |
| `HsmSystem`, `HsmRuns`, `HsmScheduling`, `HsmSteps`, `HsmProgress` | guests, monitor, tasklets and lock as one state machine; what each of its steps does; theorems over all its runs |
| `HsmService` | the service table; every step of that machine on the scheduler, mutex, partition and table objects |
| `Transport` | the request and response slots of one guest, with their bytes |
| `SysTick`, `SysTickGuests` | the virtual SysTick; the one hardware timer that all guests share |
| `HsmFlash` | the flash callbacks of the key store |

## How time, runs and concurrency are modelled

- Time is an unbounded tick; the code sees its low 32 bits (`Base.Tick`). Runs of the switch have
  non-decreasing ticks, and no live frame is 2^32 ticks old when an event happens
  (`VnetRuns.GoodRun`); `VnetRuns.AncientFrameBlocks` shows that this is needed, and
  `VnetRuns.ReaperExact` says exactly when expiry cleans a ring up, for every state of the switch
  and any ticks.
- The FIFO system is self-contained: it computes every refusal (a frame is refused for lack of room
  when every cookie number is carried by a queued copy, an address when as many are owned as the
  table has entries), every cookie a reader quotes, and the number of frames that expire. There is
  no bound on the number of VMs; a frame goes to at most 65534 of them, which is where the 16-bit
  reference count of the code saturates.
- Each mutex operation is one atomic step, as src/sync/mutex.c:25-39 says. In the HSM system a step
  is a timer interrupt, a guest fault, a guest writing its request header, a submit, one round of
  the monitor's loop, or one step of a tasklet (receive, acquire, return from acquire, release, send,
  fault). A dispatch ends a step, because it does not return on the port.
- A service tasklet is receive, any number of acquire/release pairs, send; it blocks when nothing is
  pending. Guest i, tasklet i and coroutine i belong together, and every transport is initialised.
- `HsmRuns.Disciplined` is the client's side of the protocol: the counter is bumped before submit,
  and while a request is open its header stays acceptable.

## What turned out differently from what one may expect

- A request is lost for ever when its counter value equals the one received last
  (`HsmRuns.RecvLosesRequest` is the exact condition). A restart clears the guest's window, and with
  it the counter, but the server keeps its last value, so a client that counts from zero after a
  restart loses request number k exactly when k reproduces that value (`HsmRuns.NthRequestLost`).
  `HsmRuns.RestartLosesRequest` is a concrete run with the partition table's policy.
- The function named for evicting the oldest learned entry evicts the one with the lowest index
  (src/vnet/vnet_fdb.c:64-77). With learning alone that is the oldest binding if and only if its
  address was learned last before every other stored one was (`VnetFdb.EvictsOldestIff`); the other
  entries are never given up (`VnetFdb.OnlyTheFirstIsEvicted`). `VnetFdb.EvictsTheNewest` and
  `VnetFdb.EvictsTheYounger` are concrete runs.
- A guest restarted under a policy without an initial delay is never reset and never runs again
  (`HsmScheduling.RestartStrands`, `HsmScheduling.StrandedForever`).
- `wt_platform_all_guests_faulted` is reached whenever a decision finds nobody eligible, so also while
  guests are only restarting (`HsmScheduling.HaltsExactlyWhenNoneEligible`,
  `HsmScheduling.HaltsWhileRestarting`); with disciplined clients no request is open then
  (`HsmRuns.NeverHaltsOnOpenRequest`).
- Two catch-ups of a virtual timer in a row need not give what one gives (`SysTick.CatchUpTwice` is the
  exact condition). The code never makes two in a row: a save of the timer lies between them
  (`SysTickGuests.CatchUpsAreSeparated`), and the count a catch-up leaves is never used
  (`SysTickGuests.StoredCountIsDead`). What a guest does lose is everything it missed when it faulted
  before the first secure tick, as clock 0 stands for "never accounted"
  (`SysTickGuests.AwayAndBack`, `SysTickGuests.FirstSliceIsNotCounted`).
- A restart resets the guest's virtual timer, but the guest is the active one still, so the next return
  writes the live registers over it: its timer is on afterwards if and only if it was on at the fault
  (`SysTickGuests.ClearDoesNotStopTimer`).
- Expiry can leave stale descriptors behind once a live frame is 2^32 ticks old, and expiring again at
  that tick does not remove them (`VnetRuns.AncientFrameBlocks`, `VnetRuns.ExpiryIsIdempotent`).
- The cookie of a frame that has left the queue opens another frame in the same slot when the slot was
  given out a positive multiple of 2^16 times since, and then only (`VnetCookies.StaleCookieExact`).
- A second acquire by the holder is accepted and blocks it, and with it the lock, for ever
  (`Mutex.AcquireKeepsLockOkIff`, `Mutex.SelfLockedForever`).
- The flash write lock ignores the range it is given: any lock locks, and any unlock unlocks, the whole
  partition (`HsmFlash.ServeAll`).
- A virtual tick is lost when a guest leaves with it pending and its timer interrupt off: the return does
  not show it, and the next save takes it for consumed (`SysTick.LosesExactly`,
  `SysTickGuests.MaskedTickIsLost`); otherwise none is (`SysTickGuests.NoTickIsLost`).
- A restart limit looks at 32 bits of time, so a window that ended 2^32 ticks ago counts again
  (`Monitor.RestartRule`, `Monitor.AncientWindowStillCounts`).
- A preempted coroutine is runnable but not queued (`Coroutine.ParkedIsPreempted`).

## Model

| member | source | states |
|---|---|---|
| `VnetRuns.SwitchIsFifos` | src/vnet/vnet_switch.c:39-436 | From power-up, on every run with non-decreasing ticks and no live frame 2^32 ticks old, for any number of VMs: every reply of the switch, refusals and expiry counts included, is the reply of one FIFO of private frame copies per VM, and the final switch state viewed as FIFOs is the FIFO system's final state |
| `VnetRuns.RunRefines` | src/vnet/vnet_switch.c:86-436 | The same from any state that satisfies the invariant; the invariant holds again at the end |
| `VnetFifo.StepRefines` | src/vnet/vnet_switch.c:86-436 | One call of the switch is one call of the FIFO system, reply included |
| `VnetFifo.StepKeepsInv` | src/vnet/vnet_switch.c:86-436 | Every call keeps the global invariant: each queued (slot, gen) names a live slot of that generation, distinct slots and ascending birth ticks along each ring, refcnt equals the number of rings that hold the slot, irq equals ring non-empty, FDB equals the assigned addresses |
| `VnetFifo.TxAgrees` | src/vnet/vnet_switch.c:185-305 | A transmission appends one private copy to exactly the queues that must receive it (the first 65534 of them) and returns the code for whether anybody did, or changes nothing with the right refusal, pool exhaustion included |
| `VnetFifo.ReceivesIsGets` | src/vnet/vnet_switch.c:261-289 | Who receives a frame through the FDB scan and the delivery loop is who owns the destination address (or everybody else, for multicast and flooding), if open and not full, up to the limit of the reference count |
| `VnetFifo.AssignAgrees` | src/vnet/vnet_switch.c:106-141 | Assigning an address through the FDB is assigning it in the FIFO system, all refusals included; it is NOTREADY exactly when as many VMs own an address as the table has entries |
| `VnetFifo.ReceiveAgrees` | src/vnet/vnet_switch.c:316-409 | poll, read, release and ack show the front copy byte for byte, remove exactly it, or refuse as the FIFO does |
| `VnetFifo.ExpireAgrees` | src/vnet/vnet_switch.c:418-436 | Expiry removes exactly the copies that reached the timeout from every queue, and returns the number of distinct frames among them |
| `VnetFifo.ExpiredCountAgrees` | src/vnet/vnet_pool.c:109-129 | The number of slots freed is the number of distinct frames among the copies that leave |
| `VnetFifo.UnusedIsFirstFree` | src/vnet/vnet_pool.c:44-66 | The slot allocated is the lowest number that no queued copy carries, and allocation fails exactly when every number is carried by some queued copy |
| `VnetFifo.InUseIsQueued` | src/vnet/vnet_pool.c:44-95 | A slot is in use if and only if some queued copy carries its number |
| `VnetRuns.FifoOrder` | src/vnet/vnet_switch.c:143-436 | Over every such run each VM's queue at the start plus all that arrived equals all that left plus the queue at the end, in order: nothing is lost, duplicated, reordered or overwritten |
| `VnetRuns.NoForgedFrames` | src/vnet/vnet_switch.c:199-227 | Every copy ever queued carries the bytes of a transmission of the run by its recorded source, whose address is bytes 6 to 11 of the frame; the state that transmission met admitted it, and this VM is one of its receivers: bytes 0 to 5 are its address, or byte 0 is odd, or frames are flooded |
| `VnetRuns.UnicastStaysPrivate` | src/vnet/vnet_switch.c:261-269 | Without flooding, a frame whose first byte is even changes the queue of at most one VM: the one other VM whose address is bytes 0 to 5, whose queue grows by one copy of the frame's bytes |
| `VnetMac.ReadsInOrder` | src/vnet/vnet_switch.c:215-216 | An address is read off a frame byte by byte in the order in which it is written |
| `VnetAnswers.TransmitAnswers` | src/vnet/vnet_switch.c:185-305 | In every reachable state the answer to a transmission, code by code, from the frame's length and bytes, the sender's state, the room in the pool and whether anybody takes the frame |
| `VnetAnswers.OwnAddressIsAccepted` | src/vnet/vnet_switch.c:215-227 | A VM that sends from its own six bytes is never refused as a spoofer, and as malformed only for a zero destination |
| `VnetAnswers.TransmitDelivers` | src/vnet/vnet_switch.c:252-292 | Whose queue grows by one copy with the frame's bytes, source and tick: the open VMs with room that bytes 0 to 5 name, except the sender, the first 65534 of them; no other port changes |
| `VnetAnswers.AssignAnswers` | src/vnet/vnet_switch.c:106-141 | The answer to an assignment, code by code, and its effect on the ports |
| `VnetAnswers.OpenAnswers` | src/vnet/vnet_switch.c:86-104 | The answer to an open, field by field, and that only the open flag changes |
| `VnetAnswers.ReceiverAnswers` | src/vnet/vnet_switch.c:316-409 | The answers of poll, read, release and ack about the front of the queue, code by code; only a release with the front's cookie changes anything, and that takes the front |
| `VnetAnswers.ExpiryTakes` | src/vnet/vnet_switch.c:418-436 | Expiry takes from every queue its front part of exactly those copies that reached the timeout, and nothing else |
| `VnetRuns.TxKeepsTable` | src/vnet/vnet_switch.c:223-232 | In every reachable state a transmission leaves the forwarding table as it is |
| `VnetRuns.OwnersDiffer` | src/vnet/vnet_switch.c:106-141 | In every reachable state no two VMs own the same address |
| `VnetRuns.CookieIsFresh` | src/vnet/vnet_pool.c:44-66 | The slot of the next frame is in no ring and carried by no queued copy, so a queued (slot, gen) pair is never handed out again, whatever the 16-bit generation does |
| `VnetCookies.StaleCookieRefused` | src/vnet/vnet_switch.c:341-394 | On every good run from power-up: once a frame has left a VM's queue, released or expired, the switch refuses a read or release with its cookie, unless its slot was given out a positive multiple of 2^16 times since |
| `VnetCookies.StaleCookieExact` | src/vnet/vnet_pool.c:44-66 | Such a cookie is accepted again if and only if a frame in the same slot is at the front of that VM's queue and the slot was given out a positive multiple of 2^16 times since; a refusal changes nothing |
| `VnetCookies.CookiesStayOk` | src/vnet/vnet_pool.c:44-66 | On every run each queue holds a slot at most once, under the generation given out last |
| `VnetCookies.GenIsGiven` | src/vnet/vnet_pool.c:44-66 | The generation of a slot counts the frames it was given to, on 16 bits |
| `VnetCookies.GenReturns` | src/vnet/vnet_pool.c:44-66 | A generation comes back after every 2^16 frames in its slot, and then only |
| `VnetRuns.ReferenceConservation` | src/vnet/vnet_switch.c:143-183 | References add up to the descriptors in all rings, in_use_count is the number of referenced slots, and the rings are all empty if and only if the whole pool is free |
| `VnetRuns.IrqIsLevel` | src/vnet/vnet_switch.c:396-434 | After every operation of every good run, for any number of VMs, the receive interrupt of a VM is pending exactly when its queue is not empty |
| `VnetRuns.ReaperExact` | src/vnet/vnet_switch.c:418-436 | For every state of the switch and any tick: if expiry frees a frame, it leaves only live descriptors in a ring if and only if no live descriptor of the ring comes before a stale one; if it frees none, the ring stays as it is |
| `VnetRuns.ReaperKeepsLive` | src/vnet/vnet_switch.c:418-436 | Where no descriptor is stale before: none is afterwards if and only if the frames expiry frees are the first ones of the ring |
| `VnetRuns.ExpiryIsIdempotent` | src/vnet/vnet_switch.c:418-436 | A second expiry at the same tick changes nothing, so it removes no stale descriptor the first one left |
| `VnetRuns.AncientFrameBlocks` | src/vnet/vnet_pool.c:109-129 | Concrete run from power-up: two frames are queued, and at tick 2^32 expiry frees only the younger one and leaves its descriptor behind a live head |
| `VnetRuns.SmallSwitchServesEverybody` | src/vnet/vnet_switch.c:164-175 | With at most 65535 VMs everybody who should receive a frame does |
| `VnetInvariant.InitInv` | src/vnet/vnet_switch.c:39-72 | The initial switch satisfies the invariant |
| `VnetInvariant.DeliverHandsOut` | src/vnet/vnet_switch.c:271-288 | The delivery loop hands one descriptor to exactly the first VMs that take one, as many as the 16-bit reference count has room for, whatever the number of VMs |
| `VnetInvariant.EveryTakerGets` | src/vnet/vnet_switch.c:163-175 | The undo of a push is not reached if and only if no more VMs take the frame than the reference count has room for |
| `VnetInvariant.SmallSwitchServesAll` | src/vnet/vnet_switch.c:163-175 | So it is unreachable with at most 65535 VMs |
| `VnetInvariant.FullMeansAllOwned` | src/vnet/vnet_fdb.c:123-127 | In every reachable state the table is full if and only if as many VMs own an address as it has entries |
| `VnetInvariant.DeliverCounts` | src/vnet/vnet_switch.c:271-288 | The reference count after delivery is one more than the number of rings that took the frame |
| `VnetInvariant.TxShape` | src/vnet/vnet_switch.c:234-304 | An admitted transmission stores the frame's bytes, length and source in the first free slot and hands out one descriptor per receiver with one reference each |
| `VnetInvariant.StoreKeepsInv` | src/vnet/vnet_switch.c:234-292 | Storing and handing out a frame keeps the invariant |
| `VnetInvariant.LearnIsNoop` | src/vnet/vnet_switch.c:229-232 | In every reachable state the learning call of a transmission changes nothing |
| `VnetInvariant.ReleaseShape` | src/vnet/vnet_switch.c:363-394 | A release with the front cookie drops one reference and the front descriptor |
| `VnetInvariant.ReleaseKeepsInv` | src/vnet/vnet_switch.c:363-394 | A release keeps the invariant; the slot is freed exactly when no other ring holds it |
| `VnetInvariant.NothingStale` | src/vnet/vnet_switch.c:307-314 | Under the invariant the stale-head loop removes nothing |
| `VnetInvariant.ReapIsByAge` | src/vnet/vnet_pool.c:109-129 | With no live frame 2^32 ticks old, the modular age test of the reaper is the test of true age |
| `VnetInvariant.FreedIsPrefix` | src/vnet/vnet_switch.c:418-436 | The frames the reaper frees are a prefix of every ring |
| `VnetInvariant.SkipsThePrefix` | src/vnet/vnet_switch.c:307-314 | Dropping stale heads removes exactly that prefix |
| `VnetInvariant.ExpireShape` | src/vnet/vnet_switch.c:418-436 | Expiry cuts the aged prefix off every ring and frees exactly the aged slots |
| `VnetInvariant.ExpireKeepsInv` | src/vnet/vnet_switch.c:418-436 | Expiry keeps the invariant |
| `VnetInvariant.AssignShape` | src/vnet/vnet_switch.c:106-141 | Assignment succeeds or refuses by ownership of the address and room in the table, stated without the table's layout |
| `VnetInvariant.AssignKeepsInv` | src/vnet/vnet_switch.c:106-141 | Assignment keeps the table and the vnics in agreement |
| `VnetInvariant.OpenKeepsInv` | src/vnet/vnet_switch.c:86-104 | Opening keeps the invariant |
| `VnetInvariant.BigTableNeverFull` | src/vnet/vnet_fdb.c:91-133 | With a table entry per VM an assignment never fails for lack of room |
| `VnetInvariant.DeepRingNeverFull` | src/vnet/vnet_ring.c:36-45 | A ring with at least as many places as the pool has slots is never full when a frame is delivered |
| `VnetSwitch.DeliveringStep` | src/vnet/vnet_switch.c:157-182 | One accepted or refused delivery is one step of the delivery loop's specification |
| `VnetSwitch.DeliveryAnswers` | src/vnet/vnet_switch.c:143-175 | Which of the three refusals a delivery ends with, or none |
| `VnetSwitch.Vnic.Accept` | src/vnet/vnet_switch.c:143-183 | Ends with the code of the code's own checks in their order (not open, ring full, count saturated, delivered); only the last changes ring and pool, also after the undo of the push |
| `VnetSwitch.Vnic.SkipStaleHead` | src/vnet/vnet_switch.c:307-314 | Drops descriptors up to the first live one |
| `VnetSwitch.Vnic.DropStale` | src/vnet/vnet_switch.c:307-314 | Drops the head exactly if it is stale |
| `VnetSwitch.Vnic.Clear` | src/vnet/vnet_switch.c:426-434 | Drops the stale heads and lowers the interrupt of an empty ring |
| `VnetSwitch.Switch.constructor` | src/vnet/vnet_switch.c:39-72 | All vnics closed, pool and table empty |
| `VnetSwitch.Switch.OpenVm` | src/vnet/vnet_switch.c:86-104 | Performs exactly the specified step on the whole switch and fills in version, features, frame size, interrupt line and the address, if one is set |
| `VnetSwitch.Switch.Assign` | src/vnet/vnet_switch.c:106-141 | Performs exactly the specified step, with each refusal in the code's order |
| `VnetSwitch.Switch.DeliverOne` | src/vnet/vnet_switch.c:143-183 | One delivery changes one vnic and one reference count, or nothing, with the code of the check that failed |
| `VnetSwitch.Switch.DeliverRange` | src/vnet/vnet_switch.c:270-288 | The loop over the receivers equals the recursive delivery function, source skipped |
| `VnetSwitch.Switch.CheckTx` | src/vnet/vnet_switch.c:199-227 | The refusals of a transmission in their order |
| `VnetSwitch.Switch.Transmit` | src/vnet/vnet_switch.c:185-305 | The whole transmission equals the specified step |
| `VnetSwitch.Switch.SendOut` | src/vnet/vnet_switch.c:252-304 | Zero destination frees the slot; otherwise deliver, drop the scratch reference, report |
| `VnetSwitch.Switch.PollRx` | src/vnet/vnet_switch.c:316-339 | Shows the front descriptor after stale heads are gone |
| `VnetSwitch.Switch.ReadRx` | src/vnet/vnet_switch.c:341-361 | Copies the frame behind a live cookie, or refuses |
| `VnetSwitch.Switch.Release` | src/vnet/vnet_switch.c:363-394 | Releases the front cookie only |
| `VnetSwitch.Switch.IrqAck` | src/vnet/vnet_switch.c:396-409 | Recomputes the interrupt from the ring |
| `VnetSwitch.Switch.DropExpiredFrames` | src/vnet/vnet_switch.c:418-436 | Reaps the pool, then clears every vnic; returns the number of slots freed |
| `VnetPool.Pool.constructor` | src/vnet/vnet_pool.c:26-42 | All slots free |
| `VnetPool.TakenDoes` | src/vnet/vnet_pool.c:51-60 | Taking a slot, field by field |
| `VnetPool.FilledDoes` | src/vnet/vnet_switch.c:240-245 | Filling a slot, byte by byte and field by field |
| `VnetPool.RefDoes` | src/vnet/vnet_pool.c:68-79 | A reference is added exactly to a slot the cookie names whose count is not full, with the refusals code by code |
| `VnetPool.ReleaseDoes` | src/vnet/vnet_pool.c:81-95 | A reference is dropped exactly from a slot the cookie names; freed with the last one, with the refusals code by code |
| `VnetPool.Pool.Alloc` | src/vnet/vnet_pool.c:44-66 | Takes the first free slot, bumps its generation (16-bit wrap), one reference, birth tick; none free changes nothing |
| `VnetPool.Pool.Fill` | src/vnet/vnet_switch.c:240-245 | Writes the frame's bytes, length and source, and keeps the rest of the buffer |
| `VnetPool.Pool.AddRef` | src/vnet/vnet_pool.c:68-79 | One more reference to a live slot of that generation, or the right refusal, saturation included |
| `VnetPool.Pool.Drop` | src/vnet/vnet_pool.c:81-95 | One reference less; freed exactly at zero; stale and double releases refused |
| `VnetPool.Pool.Live` | src/vnet/vnet_pool.c:131-140 | True exactly for a referenced slot of that generation |
| `VnetPool.Pool.Reap` | src/vnet/vnet_pool.c:109-129 | Frees exactly the slots whose modular age reached the timeout and counts them; timeout 0 does nothing |
| `VnetRing.Ring.Push` | src/vnet/vnet_ring.c:36-45 | Appends to the abstract queue unless full |
| `VnetRing.Ring.Unpush` | src/vnet/vnet_switch.c:164-175 | Stepping tail and count back undoes a push |
| `VnetRing.Ring.Pop` | src/vnet/vnet_ring.c:47-56 | Removes and returns the front of the abstract queue |
| `VnetRing.Ring.DropHead` | src/vnet/vnet_ring.c:58-66 | Removes the front of the abstract queue |
| `VnetRing.Ring.Peek` | src/vnet/vnet_ring.c:68-75 | Shows the front and changes nothing |
| `VnetFdb.Fdb.ScanMac` | src/vnet/vnet_fdb.c:26-37 | First non-empty entry with the address |
| `VnetFdb.Fdb.ScanOwner` | src/vnet/vnet_fdb.c:39-50 | First assigned entry of the guest |
| `VnetFdb.Fdb.ScanKind` | src/vnet/vnet_fdb.c:52-77 | First entry of a kind: the first empty one, or the learned one to evict |
| `VnetFdb.Fdb.AssignMac` | src/vnet/vnet_fdb.c:91-133 | Equals the specified assignment, every refusal included |
| `VnetFdb.Fdb.LearnMac` | src/vnet/vnet_fdb.c:148-178 | Equals the specified learning step |
| `VnetFdb.Fdb.ReleaseGuest` | src/vnet/vnet_fdb.c:135-146 | Empties exactly the guest's entries |
| `VnetFdb.Fdb.Find` | src/vnet/vnet_fdb.c:180-190 | Equals the specified lookup |
| `VnetFdb.LookupIsMapLookup` | src/vnet/vnet_fdb.c:180-190 | The first-match scan is lookup in the finite map the table stands for |
| `VnetFdb.AssignRefinesMap` | src/vnet/vnet_fdb.c:91-133 | Assignment is a map update that binds the address for good, evicting at most one learned binding; the table stays well formed (no address twice, one assigned entry per guest) |
| `VnetFdb.LearnRefinesMap` | src/vnet/vnet_fdb.c:148-178 | Learning is a map update that never touches an assigned binding |
| `VnetFdb.AssignRefusals` | src/vnet/vnet_fdb.c:91-133 | The refusals of an assignment, code by code, in terms of the map |
| `VnetFdb.LearnRefusals` | src/vnet/vnet_fdb.c:148-178 | The refusals of learning, code by code, in terms of the map |
| `VnetFdb.ReleaseRefinesMap` | src/vnet/vnet_fdb.c:135-146 | Releasing a guest removes exactly its bindings |
| `VnetFdb.TableWrite` | src/vnet/vnet_fdb.c:120-131 | Overwriting one entry of a well-formed table replaces one binding of the map |
| `VnetFdb.StoreRefinesMap` | src/vnet/vnet_fdb.c:52-77 | Writing to the place found (own entry, empty, or lowest learned) is a map update minus what it evicts |
| `VnetFdb.PinnedStays` | src/vnet/vnet_fdb.c:91-178 | Under any sequence of assign, learn and release an assigned binding stays unless its own guest is released |
| `VnetFdb.EvictedIsLearned` | src/vnet/vnet_fdb.c:64-77 | Only a learned binding is ever evicted |
| `VnetFdb.EvictsOldestIff` | src/vnet/vnet_fdb.c:64-77 | After any learning, known addresses included, a new address in a full table evicts entry 0, and that is the binding written longest ago if and only if its address was learned last before every other stored address was |
| `VnetFdb.EntriesHoldLast` | src/vnet/vnet_fdb.c:148-178 | Over every learning run each entry in use holds what the last operation on its address learned, and was not written since |
| `VnetFdb.OnlyTheFirstIsEvicted` | src/vnet/vnet_fdb.c:64-77 | Once the table is full of learned entries, learning replaces the address of no entry but the first |
| `VnetFdb.EvictsTheNewest` | src/vnet/vnet_fdb.c:64-77 | Concrete run: a known address is learned again, and the very first eviction takes that newest binding |
| `VnetFdb.EvictsOldestOnce` | src/vnet/vnet_fdb.c:64-77 | When no address is learned twice, the binding evicted for the next new address is the oldest if and only if nothing was evicted before (or the table has one entry); from then on it is always the newest |
| `VnetFdb.EvictsTheYounger` | src/vnet/vnet_fdb.c:64-77 | Concrete run: after a release the younger of two learned bindings is evicted |
| `VnetFdb.LearnedInOrder` | src/vnet/vnet_fdb.c:148-178 | When no address is learned twice, the entries fill up in order, after which every new binding lands in the first one |
| `VnetFdb.EmptyTable` | src/vnet/vnet_fdb.c:79-89 | The initial table stands for the empty map |
| `Coroutine.AlwaysConsistent` | src/sched/coroutine.c:66-431 | After any sequence of create, wake, block, run, tick, preempt and fault: the queue has no duplicates and holds runnable coroutines only, exactly the current one is running, and the runnable ones outside the queue are exactly the preempted ones |
| `Coroutine.StepKeepsConsistent` | src/sched/coroutine.c:66-431 | Each operation keeps that |
| `Coroutine.ParkedIsPreempted` | src/sched/coroutine.c:416-431 | After any sequence of operations, the runnable coroutines outside the queue are exactly those that were preempted and neither entered nor faulted since |
| `Coroutine.OperationsDo` | src/sched/coroutine.c:210-431 | What each operation does to the CPU, the states and the queue: a woken or created runnable coroutine is last in the queue, and only run and tick enter anybody |
| `Coroutine.FaultedForever` | src/sched/coroutine.c:308-349 | A faulted coroutine is never queued, preempted or current again |
| `Coroutine.QueueMovesForward` | src/sched/coroutine.c:386-414 | FIFO service: a tick round moves every queued coroutine forward by exactly one place and enters the first; removals ahead move it by one; nothing moves it back |
| `Coroutine.ServedInTurn` | src/sched/coroutine.c:386-414 | Over whole runs, whatever else happens short of its own fault, the coroutine in place k (from 0) is entered by tick round k + 1 at the latest |
| `Coroutine.WithoutIsRemoval` | src/sched/coroutine.c:140-171 | Unlinking removes exactly one node and keeps the order of the rest |
| `Coroutine.ChainAppend` | src/sched/coroutine.c:66-85 | Linking behind the tail appends to the queue threaded through the links |
| `Coroutine.ChainPop` | src/sched/coroutine.c:87-107 | Following the head's link removes the front |
| `Coroutine.ChainCut` | src/sched/coroutine.c:140-171 | Redirecting the predecessor's link cuts one node out of the chain |
| `Coroutine.Scheduler.constructor` | src/sched/coroutine.c:177-208 | Empty queue, bootstrap current |
| `Coroutine.Scheduler.Enqueue` | src/sched/coroutine.c:66-85 | Appends at the tail; the links stay an acyclic chain from head to tail |
| `Coroutine.Scheduler.Dequeue` | src/sched/coroutine.c:87-107 | Takes the head, or reports an empty queue |
| `Coroutine.Scheduler.FindLink` | src/sched/coroutine.c:149-170 | Finds the node and its predecessor, or that it is not queued |
| `Coroutine.Scheduler.FindTail` | src/sched/coroutine.c:154-164 | The walk along the links ends at the last node |
| `Coroutine.Scheduler.Unlink` | src/sched/coroutine.c:140-171 | Removes exactly the node, wherever it is; head and tail stay right |
| `Coroutine.Scheduler.NewCo` | src/sched/coroutine.c:210-272 | Creates a runnable (queued) or blocked coroutine, or fails with a full table |
| `Coroutine.Scheduler.WakeCo` | src/sched/coroutine.c:289-306 | Queues a blocked coroutine; others are left alone |
| `Coroutine.Scheduler.BlockCo` | src/sched/coroutine.c:274-287 | Blocks the current coroutine and leaves it |
| `Coroutine.Scheduler.MarkFaultedCo` | src/sched/coroutine.c:308-349 | Takes the coroutine out of the queue and marks it for good |
| `Coroutine.Scheduler.RunCo` | src/sched/coroutine.c:364-384 | Enters a runnable coroutine from the bootstrap, unlinking it first; otherwise nothing |
| `Coroutine.Scheduler.Tick` | src/sched/coroutine.c:386-414 | One round: the head of the queue is entered |
| `Coroutine.Scheduler.RequestPreempt` | src/sched/coroutine.c:416-431 | The running coroutine becomes runnable outside the queue |
| `Mutex.AlwaysLockOk` | src/sync/mutex.c:50-158 | On every interleaving of atomic steps, try_acquire included: at most one holder, waiters distinct, blocked and not the holder, waiters imply a holder, the holder is not faulted |
| `Mutex.PerformKeepsLockOk` | src/sync/mutex.c:50-158 | Each step keeps that, faults of the running coroutine included |
| `Mutex.WaitersKeepTheirOrder` | src/sync/mutex.c:68-113 | After h hand-offs the waiter in place k is in place k - h, whatever else happened |
| `Mutex.WaitersAreServedInOrder` | src/sync/mutex.c:90-158 | Hand-off number k + 1, by release or by the holder's fault, makes the waiter in place k (from 0) the holder |
| `Mutex.TryTakesFreeLock` | src/sync/mutex.c:118-126 | A coroutine gets a free lock by try_acquire and is refused a held one |
| `Mutex.LockAnswers` | src/sync/mutex.c:50-158 | How acquire and release answer and who holds the lock afterwards: only its holder gives it up, to the oldest waiter |
| `Mutex.AcquireKeepsLockOkIff` | src/sync/mutex.c:50-88 | An acquire keeps the lock in order if and only if it is not a second one by the holder; that one is accepted, and the holder waits for itself |
| `Mutex.SelfLockedForever` | src/sync/mutex.c:68-113 | After such an acquire, whatever the others do by the mutex's rules of use, the holder stays blocked and the lock is never handed on |
| `Mutex.SleepMutex.AcquireLock` | src/sync/mutex.c:50-88 | Refused in the bootstrap, taken when free, otherwise appended to the wait list and blocked, the holder itself included |
| `Mutex.SleepMutex.Append` | src/sync/mutex.c:74-81 | The caller joins the end of the list threaded through the wait links |
| `Mutex.SleepMutex.Pop` | src/sync/mutex.c:106-110 | The oldest waiter leaves the list |
| `Mutex.SleepMutex.ReleaseLock` | src/sync/mutex.c:90-116 | Refused for anybody but the holder; otherwise the oldest waiter becomes holder and is woken |
| `Mutex.SleepMutex.ReleaseHeldBy` | src/sync/mutex.c:133-158 | The same for a given coroutine, nothing if it is not the holder |
| `Mutex.SleepMutex.TryAcquireLock` | src/sync/mutex.c:118-126 | Takes a free lock, never waits; from the bootstrap it reports success with no holder |
| `Monitor.FindsNearest` | src/monitor.c:96-133 | The choice is an eligible guest, no eligible guest is nearer in cyclic order, and "none" means that none is eligible |
| `Monitor.ComesNearer` | src/monitor.c:96-133 | A decision chooses an eligible guest, or brings the start of the next scan nearer to it |
| `Monitor.ServedWithinOneRound` | src/monitor.c:96-133 | A guest eligible at each of some decisions in a row is chosen within guest_count of them, whatever the others do in between |
| `Monitor.BackoffEnds` | src/monitor.c:135-150 | A restarted guest is ready after exactly as many back-off rounds as its delay, counters kept; with delay 0 never |
| `Monitor.RestartRule` | src/monitor.c:275-297 | For every life of a guest: a fault gives it up if and only if there is a limit L, L restarts were granted since the accounting window in force was opened, and that has not run out on 32 bits of time; otherwise it is restarted with the policy's delay |
| `Monitor.LapsedIsElapsed` | src/monitor.c:275-278 | With fewer than 2^32 ticks since the window was opened, it has run out if and only if W > 0 and W ticks have passed |
| `Monitor.AncientWindowStillCounts` | src/monitor.c:277-278 | Concrete life that shows this bound is needed: a guest is given up at tick 2^32 for a restart at tick 0 and a window of 64 ticks |
| `Monitor.RestartBound` | src/monitor.c:260-303 | With limit L > 0 and window W > 0, any W consecutive ticks contain at most 2L - 1 restarts, also across the wrap of the 32-bit tick |
| `Monitor.RestartBoundIsSharp` | src/monitor.c:260-303 | For every L > 0 and W >= 2L - 1 a guest's life with one fault per tick that attains the bound |
| `Monitor.RestartsEver` | src/monitor.c:260-303 | With W = 0 there are at most L restarts, ever |
| `Monitor.WindowsApart` | src/monitor.c:275-282 | Accounting windows open at least W ticks apart |
| `Monitor.CountersMean` | src/monitor.c:260-303 | restart_count never exceeds L, and first_restart_tick is the tick at which the window in force was opened |
| `Monitor.DecisionsNeverPanic` | src/monitor.c:305-339 | A scheduling decision never meets the dispatcher's wrong-state panic, and ends in "all faulted" exactly when nobody is eligible |
| `Monitor.RequestAndResponse` | src/monitor.c:412-435 | Which guests a request makes wait and a response makes ready, and that nothing else of them changes |
| `Monitor.Partitions.constructor` | src/monitor.c:341-367 | All guests ready, counters zero |
| `Monitor.Partitions.FindNextRunnable` | src/monitor.c:96-133 | The scan loop, with its modulo, equals the specified choice |
| `Monitor.Partitions.TickBackoff` | src/monitor.c:135-150 | The loop equals one back-off round for every guest |
| `Monitor.Partitions.Restart` | src/monitor.c:260-303 | Equals the specified restart step; tells whether the clear window is zeroed |
| `Monitor.Partitions.SaveRunningGuest` | src/monitor.c:236-258 | A running guest becomes ready, a waiting one keeps waiting |
| `Monitor.Partitions.EnterGuestCode` | src/monitor.c:190-209 | The guest is running, current, and its own representative |
| `Monitor.Partitions.EnterTaskletOf` | src/monitor.c:212-233 | Panics unless the guest waits; otherwise its tasklet represents it |
| `Monitor.Partitions.ScheduleNextGuest` | src/monitor.c:305-339 | One decision of the scheduling loop, deferring a tasklet in Handler mode |
| `Monitor.Partitions.OnSecureTimer` | src/monitor.c:382-409 | Every path of the timer entry, by what the interrupt found running |
| `Monitor.Partitions.OnGuestFault` | src/monitor.c:438-455 | Restart or give up the current guest, then decide |
| `Monitor.Partitions.HsmRequestPending` | src/monitor.c:412-423 | Waiting, unless given up or restarting |
| `Monitor.Partitions.HsmResponseReady` | src/monitor.c:425-435 | A waiting guest becomes ready |
| `HsmSystem.StepKeepsInv` | src/monitor.c:190-455 | Every step of guests, monitor and tasklets together keeps the system invariant |
| `HsmSystem.TimerKeepsInv` | src/monitor.c:382-409 | The timer, on every path, keeps it |
| `HsmSystem.DecisionKeepsInv` | src/monitor.c:305-339 | Every scheduling decision keeps it |
| `HsmSystem.FaultKeepsInv` | src/monitor.c:438-455 | A guest fault keeps it |
| `HsmSystem.SubmitKeepsInv` | src/port/stm32h563/platform_stm32h563.c:1273-1298 | A submit keeps it; it never wakes a tasklet out of the lock's wait list |
| `HsmSystem.WriteKeepsInv` | src/arch/armv8m/cmse_transport.c:249-274 | Whatever a guest writes into its own request header keeps it |
| `HsmSystem.AcquireKeepsInv` | src/sync/mutex.c:50-88 | An acquire by a serving tasklet keeps it, taken or queued |
| `HsmSystem.ReleaseKeepsInv` | src/sync/mutex.c:90-116 | A release with hand-off keeps it |
| `HsmSystem.SendKeepsInv` | src/arch/armv8m/cmse_transport.c:284-318 | A response keeps it |
| `HsmSystem.HandOffEffect` | src/sync/mutex.c:97-113 | A hand-off wakes exactly the new holder and leaves every other coroutine and its place in the wait list alone |
| `HsmSystem.RecvKeepsInv` | src/arch/armv8m/cmse_transport.c:232-275 | A receive keeps it |
| `HsmSystem.AcquireReturnsAsHolder` | src/sync/mutex.c:83-88 | acquire comes back as the holder only |
| `HsmSystem.TaskletFaultKeepsInv` | src/port/stm32h563/platform_stm32h563.c:1156-1180 | The tasklet fault path keeps it |
| `HsmRuns.AlwaysInv` | src/monitor.c:190-455 | On every run the system invariant holds in every state |
| `HsmRuns.BootInv` | src/monitor.c:341-380 | The state after boot satisfies it |
| `HsmRuns.BootTasklets` | src/services/wolfhsm/wt_hsm.c:325-336 | Creating one blocked tasklet per guest gives the boot state's scheduler |
| `HsmRuns.SchedulerSafety` | src/monitor.c:190-233 | In every reachable state at most one guest is marked running, it is the current one and its own representative; a non-zero delay implies restarting; the wrong-state panic is not reached |
| `HsmRuns.GivenUpForever` | src/monitor.c:283-288 | A guest given up is never revived and never runs again |
| `HsmRuns.NoClientOfDeadService` | src/services/wolfhsm/wt_hsm.c:411-433 | Once a guest's tasklet is faulted, in every later state the guest is not waiting for it, and the tasklet is not queued, preempted, running, holder of the lock or waiting for it |
| `HsmRuns.NoLostWakeup` | src/services/wolfhsm/wt_hsm.c:220-235 | On every run from boot with disciplined clients, a waiting guest's tasklet is runnable or running, or waits for the lock behind a runnable or running holder whose own guest waits too |
| `HsmRuns.OpenRequestIsEligible` | src/monitor.c:96-133 | While a request is open and no tasklet is on the CPU, wt_find_next_runnable finds somebody |
| `HsmRuns.NeverHaltsOnOpenRequest` | src/monitor.c:305-321 | On every run from boot with disciplined clients, wt_platform_all_guests_faulted is not reached while a request is open |
| `HsmRuns.RecvLosesRequest` | src/arch/armv8m/cmse_transport.c:249-274 | A receive loses the request of a waiting guest if and only if the counter equals the last one received or the length exceeds the slot |
| `HsmRuns.StuckForever` | src/arch/armv8m/cmse_transport.c:249-267 | A request lost that way is lost for ever: on every continuation the guest keeps waiting for a blocked tasklet |
| `HsmRuns.RestartKeepsLast` | src/monitor.c:299-302 | A restart takes the request counter back to 0 but not the server's last value |
| `HsmRuns.NthRequestLost` | src/arch/armv8m/cmse_transport.c:249-267 | A request that carries the k-th value counted from 0 is lost if and only if k reproduces the server's last value on 16 bits, or its length does not fit |
| `HsmRuns.RestartLosesRequest` | src/port/stm32h563/partitions.c:57-101 | Concrete run from boot: served once, restarted, the client's first request with the same counter value is lost |
| `HsmRuns.OneAnswerPerRequest` | src/arch/armv8m/cmse_transport.c:232-398 | Every received request has been answered exactly once, except for the one in work; a fault answers it too |
| `HsmRuns.WaitingEndsByAnswer` | src/monitor.c:425-435 | A waiting guest is released by a response, which bumps its counter and makes it ready, or by its own fault, and by nothing else |
| `HsmRuns.RestartsAreBounded` | src/monitor.c:260-303 | On every run of the whole system from boot, any W consecutive timer ticks contain at most 2L - 1 restarts of a guest; with W = 0 there are at most L, ever |
| `HsmRuns.RestartRuleOnRuns` | src/monitor.c:275-297 | The restart rule for the guest that faults in any step of any run of the system from boot |
| `HsmScheduling.ServedOnRuns` | src/monitor.c:305-339 | On every run of the whole system a guest that is eligible at every decision is chosen after at most as many decisions as there are places between it and the guest chosen last, deferral included, so within guest_count decisions |
| `HsmScheduling.DecisionStep` | src/monitor.c:305-339 | Every decision of a run starts its scan behind the guest chosen last, and its result is the guest chosen next |
| `HsmSteps.TickInTasklet` | src/monitor.c:387-395 | A tick that finds a tasklet on the CPU preempts it if and only if its guest waits for it; otherwise it stays there |
| `HsmSteps.NoTaskletOutlastsItsTick` | src/monitor.c:387-395 | On every run: right after a tick that found it there, the tasklet of a waiting guest is off the CPU and runnable outside the queue |
| `HsmSteps.TickElsewhere` | src/monitor.c:397-404 | A tick that finds the monitor or a secure service leaves the CPU where it is |
| `HsmSteps.TurnChooses` | src/monitor.c:96-133 | A round of the loop enters the first guest behind the current one that has no delay and is ready, or waits for a runnable tasklet, which is entered then; it ends with all guests faulted exactly if there is none |
| `HsmSteps.TickChooses` | src/monitor.c:382-409 | So does a tick that interrupts guest code, after the guest was saved and delays counted down, except that a tasklet is left to Thread mode |
| `HsmSteps.FaultChooses` | src/monitor.c:438-455 | So does a guest fault, after the guest was dealt with |
| `HsmSteps.TickInGuestOnGuests` | src/monitor.c:382-409 | What such a tick does to every guest: saved, delay counted down, ready when it ends, entered if chosen |
| `HsmSteps.OtherTickOnGuests` | src/monitor.c:385-404 | What any other tick does to every guest |
| `HsmSteps.FaultOnItself` | src/monitor.c:260-303 | The guest that faults is given up or restarted; only a restart clears its headers, if its policy says so |
| `HsmSteps.FaultOnOthers` | src/monitor.c:438-455 | No other guest changes, except that the one chosen is entered |
| `HsmSteps.SubmitOpens` | src/port/stm32h563/platform_stm32h563.c:1273-1298 | A submit is taken if and only if the service is up and the size fits a slot; then the guest waits and its tasklet, if blocked, is runnable and last in the queue, and nothing else changes |
| `HsmSteps.ReceiveDoes` | src/arch/armv8m/cmse_transport.c:232-275 | The three ends of a receive, with all that changes |
| `HsmSteps.AcquireDoes` | src/sync/mutex.c:50-88 | An acquire takes a free lock, or joins the end of the line and blocks |
| `HsmSteps.ReleaseDoes` | src/sync/mutex.c:90-116 | A release passes the lock to the first in line, who is runnable and last in the queue, or frees it |
| `HsmSteps.SendDoes` | src/arch/armv8m/cmse_transport.c:284-318 | A response bumps the counter and makes the waiting guest ready; the tasklet keeps the CPU and the lock stays as it is |
| `HsmSteps.TaskletFaultDoes` | src/services/wolfhsm/wt_hsm.c:411-433 | A tasklet's fault answers its guest, takes the service down, and passes a lock it holds to the first in line |
| `HsmSteps.ResumeDoes` | src/monitor.c:81-93 | Thread mode enters the tasklet that was deferred to it |
| `HsmProgress.WaitingIsServed` | src/monitor.c:96-133 | On every run from boot with disciplined clients, whenever a guest waits, its tasklet is on the CPU or is entered as soon as the lock has been handed on once for everybody ahead of it (itself included) and, after that, more decisions were taken than there are guests |
| `HsmProgress.WaitingIsServedInTime` | src/monitor.c:382-409 | The same bounded by the timer: within two more ticks than there are guests, counting those that find guest code or a waiting guest's tasklet on the CPU |
| `HsmProgress.TicksForceDecisions` | src/monitor.c:382-409 | Any run contains at least as many scheduling decisions as such ticks, less one |
| `HsmProgress.RunnableIsEntered` | src/monitor.c:212-233 | On every run, from any state: the runnable tasklet of a waiting guest is entered within one decision more than the places between the guest and the one chosen last, deferral to Thread mode included |
| `HsmProgress.LineMovesUp` | src/sync/mutex.c:97-113 | On every run of the whole system a tasklet in place m of the lock's wait list is in place m - h after h hand-offs, releases and faults of the holder counted |
| `HsmProgress.LineEnds` | src/sync/mutex.c:97-113 | Hand-off number m + 1 makes it runnable |
| `HsmProgress.OffCpuCannotFault` | src/monitor.c:438-455 | A waiting guest that is off the CPU stays off it until its tasklet is entered, so its wait cannot end by a fault of its own |
| `HsmScheduling.HaltsExactlyWhenNoneEligible` | src/monitor.c:305-321 | wt_platform_all_guests_faulted is reached exactly in a decision that finds nobody eligible |
| `HsmScheduling.HaltsWhileRestarting` | src/monitor.c:319-321 | Concrete step from boot: with one guest, its first fault ends there although the guest is only restarting |
| `HsmScheduling.RestartStrands` | src/monitor.c:294-297 | A restart leaves the guest with no delay to count down if and only if the policy's initial delay is 0 |
| `HsmScheduling.StrandedForever` | src/monitor.c:142-147 | Such a guest is never reset and never runs again, on any continuation |
| `HsmScheduling.DelayCountsDown` | src/monitor.c:135-150 | On every run a delay of d > 0 counts down with the back-off rounds and nothing else |
| `HsmScheduling.ReadyAfterDelay` | src/monitor.c:135-150 | Back-off round number d makes the guest ready, or lets it run at once |
| `HsmService.Service.GuestForTasklet` | src/services/wolfhsm/wt_hsm.c:385-397 | The first guest that owns the tasklet, or the table's size when none does |
| `HsmService.Service.SignalTransport` | src/arch/armv8m/cmse_transport.c:352-398 | The response counter is bumped and a waiting guest made ready |
| `HsmService.Service.SignalFault` | src/services/wolfhsm/wt_hsm.c:411-433 | Lock dropped and handed on, client answered, service down, in this order |
| `HsmService.Service.FaultDispatch` | src/port/stm32h563/platform_stm32h563.c:1156-1180 | On the scheduler, mutex, partition and table objects the fault dispatcher performs exactly the system's fault step |
| `HsmService.Service.Submit` | src/port/stm32h563/platform_stm32h563.c:1273-1298 | On the same objects a submit performs exactly the system's submit step |
| `HsmService.Perform` | src/monitor.c:190-455 | Every one of the twelve kinds of step of the system, performed on the scheduler, mutex, partition and table objects, keeps them in agreement with the system's state |
| `HsmService.Service.TimerInterrupt` | src/monitor.c:382-409 | The timer interrupt with its preemption on the objects is the system's timer step |
| `HsmService.Service.GuestFault` | src/monitor.c:438-455 | A guest fault with the clearing of the window on the objects is the system's fault step |
| `HsmService.Service.LoopRound` | src/monitor.c:305-339 | A round of the monitor's loop with the resume at its end on the objects is the system's loop step |
| `HsmService.Service.ResumePending` | src/monitor.c:81-93 | The deferred resume on the objects is the system's resume step |
| `HsmService.Service.FindRunnable` | src/monitor.c:63-74 | The tasklets found runnable through the table are those the system sees |
| `HsmService.Service.Receive` | src/arch/armv8m/cmse_transport.c:232-275 | A receive on the objects is the system's receive step, blocking included |
| `HsmService.Service.AcquireForServer` | src/sync/mutex.c:50-88 | An acquire by the serving tasklet on the objects is the system's acquire step |
| `HsmService.Service.ReleaseForServer` | src/sync/mutex.c:90-116 | A release on the objects is the system's release step |
| `HsmService.Service.Send` | src/arch/armv8m/cmse_transport.c:284-318 | A response on the objects is the system's send step |
| `HsmService.StepsAreTheTransports` | src/arch/armv8m/cmse_transport.c:232-318 | On the headers, the system's receive and send steps are those of the byte-level transport |
| `HsmService.InitIsBoot` | src/arch/armv8m/cmse_transport.c:185-191 | Initialised transports have the headers of the system's boot state, whatever the memory held |
| `HsmService.Boot` | src/services/wolfhsm/wt_hsm.c:240-343 | Boot builds objects that agree with the system's boot state |
| `Transport.DeliveredOnceInOrder` | src/arch/armv8m/cmse_transport.c:232-275 | For a client that bumps the counter per request and waits for its receipt: requests are received exactly once, in order, byte for byte, through any number of 16-bit wraps, except for at most one still in the slot |
| `Transport.DeliveredFromInit` | src/arch/armv8m/cmse_transport.c:185-275 | The same from initialisation on, whatever the shared memory held before |
| `Transport.InitIsInStep` | src/arch/armv8m/cmse_transport.c:185-191 | An initialised channel holds no request and no response, and the first receive finds nothing |
| `Transport.ReceiveDoes` | src/arch/armv8m/cmse_transport.c:232-275 | The three ends of a receive; a new counter value is noted in any case, and nothing else changes |
| `Transport.FatalMirrorsRequest` | src/arch/armv8m/cmse_transport.c:352-398 | The fatal response byte by byte: 12 bytes, of which those at 2 to 5 are the request's |
| `Transport.SendReadsBack` | src/arch/armv8m/cmse_transport.c:284-318 | A response reads back as sent, the rest of the slot and the request side are untouched, and the counter changes |
| `Transport.Context.Init` | src/arch/armv8m/cmse_transport.c:185-191 | Both headers and the last counter are zeroed; the slot data stays |
| `Transport.Context.ReceiveInto` | src/arch/armv8m/cmse_transport.c:232-275 | Equals the specified receive; the buffer gets the payload and nothing on refusal |
| `Transport.Context.SendResponse` | src/arch/armv8m/cmse_transport.c:284-318 | Equals the specified send; too long data is refused without a trace |
| `Transport.Context.SignalFault` | src/arch/armv8m/cmse_transport.c:352-398 | A fatal response that mirrors kind and sequence of the request |
| `SysTick.ClosedForm` | src/port/stm32h563/platform_stm32h563.c:824-836 | One division gives the same remaining time and tick count as stepping a reload-down counter cycle by cycle, for every phase, period and number of cycles |
| `SysTick.CatchUpTwice` | src/port/stm32h563/platform_stm32h563.c:805-855 | For every timer and all v <= w: catching up at v and again at w gives what one call at w gives if and only if the timer is off, or one of the calls spans no time, or v does not come one cycle before a tick (or the period is one cycle), except that for a timer nothing was accounted for yet the w - v cycles must leave count and ticks as they are |
| `SysTick.TwoCallsLoseATick` | src/port/stm32h563/platform_stm32h563.c:825-829 | Concrete timers for which an intermediate call loses a tick, or gains one |
| `SysTick.PhaseAfter` | src/port/stm32h563/platform_stm32h563.c:824-836 | Where in its period the counter is after any number of cycles |
| `SysTick.TicksAreConserved` | src/port/stm32h563/platform_stm32h563.c:759-907 | Over every sequence of saves, restores and resets with fewer than 2^32 ticks between resets, by what the hardware shows: every tick that arose was delivered once, or lost, or is owed; a tick counts as delivered when it was shown at the restore and is not at the save |
| `SysTick.LosesExactly` | src/port/stm32h563/platform_stm32h563.c:759-803 | A tick is lost exactly if it was outstanding, the timer was started with its interrupt off, and the hardware does not show one at the next save |
| `SysTick.CatchUpAccounts` | src/port/stm32h563/platform_stm32h563.c:805-855 | A catch-up accounts up to now and adds the same ticks to both counts, each capped at 2^32 - 1, and changes no setting |
| `SysTick.VirtualSystick.AccountElapsed` | src/port/stm32h563/platform_stm32h563.c:805-855 | Equals the cycle-by-cycle catch-up with both counters saturating at 2^32 - 1 |
| `SysTick.VirtualSystick.SaveDeparting` | src/port/stm32h563/platform_stm32h563.c:770-803 | Books the consumed tick, copies the registers, and books a tick the hardware left pending |
| `SysTick.VirtualSystick.NoteConsumedTick` | src/port/stm32h563/platform_stm32h563.c:759-768 | A pended tick that the hardware no longer shows is consumed |
| `SysTick.VirtualSystick.RestoreArriving` | src/port/stm32h563/platform_stm32h563.c:857-887 | Catches up, and pends a tick exactly when one is owed and enabled |
| `SysTick.VirtualSystick.Reset` | src/port/stm32h563/platform_stm32h563.c:889-907 | Everything is zero and accounted for up to now |
| `SysTickGuests.CatchUpsAreSeparated` | src/port/stm32h563/platform_stm32h563.c:909-921 | On every run two catch-ups of one timer never follow each other without a save in between |
| `SysTickGuests.TimersFollowLogs` | src/port/stm32h563/platform_stm32h563.c:770-998 | On every run each guest's virtual timer goes through exactly the saves, restores and resets that the returns and clears mean for it |
| `SysTickGuests.EveryTickIsBooked` | src/port/stm32h563/platform_stm32h563.c:770-998 | From boot or any other reset, whatever code runs and whoever is returned to or cleared: every tick of a guest's timer was delivered once, or lost, or is owed, with fewer than 2^32 ticks between resets |
| `SysTickGuests.NoTickIsLost` | src/port/stm32h563/platform_stm32h563.c:759-887 | None is lost as long as no code leaves a tick pending with its interrupt off |
| `SysTickGuests.MaskedTickIsLost` | src/port/stm32h563/platform_stm32h563.c:759-803 | Concrete run from boot, for any wall clock, in which a guest leaves with a tick pending and its interrupt off, and the tick is taken off without being shown |
| `SysTickGuests.ReturnToItself` | src/port/stm32h563/platform_stm32h563.c:909-921 | A guest returned to at once keeps its timer as it left it, from a full period on, with a tick shown exactly if one is owed and enabled |
| `SysTickGuests.ReturnWithoutTimer` | src/port/stm32h563/platform_stm32h563.c:857-865 | A return to a guest without a timer leaves the hardware timer off |
| `SysTickGuests.StoredCountIsDead` | src/port/stm32h563/platform_stm32h563.c:857-887 | The count that a catch-up leaves in the timer it starts influences nothing that ever happens later |
| `SysTickGuests.AwayAndBack` | src/port/stm32h563/platform_stm32h563.c:770-887 | A guest that comes back after any run without it is owed the ticks its counter would have made meanwhile if and only if a secure tick had been counted when it left; its hardware timer is on as it was, at the start of a full period, with a tick shown exactly if one is owed and enabled |
| `SysTickGuests.FirstSliceIsNotCounted` | src/port/stm32h563/platform_stm32h563.c:811-814 | From boot, for any timer setting and any absence: a guest that faults before the first secure tick is owed nothing for its absence |
| `SysTickGuests.ClearDoesNotStopTimer` | src/port/stm32h563/platform_stm32h563.c:983-998 | A guest cleared while it is the active one, as a restart does, comes back with its timer on if and only if it was on when the guest faulted, owed the enabled tick pending then and those of its absence |
| `SysTickGuests.ClearAwayStopsTimer` | src/port/stm32h563/platform_stm32h563.c:889-907 | A guest cleared while another one is active comes back with its timer off and owed nothing |
| `SysTickGuests.Platform.PrepareGuestReturn` | src/port/stm32h563/platform_stm32h563.c:909-921 | On the timer objects and the hardware registers, a return is the specified step: save the active guest, then catch up and start the next |
| `SysTickGuests.Platform.SaveDeparting` | src/port/stm32h563/platform_stm32h563.c:770-803 | Saves the active guest's timer, if there is one, and stops the hardware timer |
| `SysTickGuests.Platform.RestoreArriving` | src/port/stm32h563/platform_stm32h563.c:857-887 | Catches the timer up and starts the hardware from it, or only clears the pending tick for a guest without timer |
| `SysTickGuests.Platform.ClearGuest` | src/port/stm32h563/platform_stm32h563.c:992-997 | Resets the guest's virtual timer and leaves the hardware alone |
| `HsmFlash.Flash.Program` | src/port/stm32h563/hsm_flash.c:252-314 | For every range, size and data: bad arguments and the write lock change nothing; success replaces exactly [offset, offset + size); a hardware error at a unit of the range is always reported, with the data before that unit in place, the unit as the hardware left it, and nothing else changed |
| `HsmFlash.Flash.ProgramChunk` | src/port/stm32h563/hsm_flash.c:275-308 | One round extends the written prefix to the end of the unit or of the data |
| `HsmFlash.UnitsAreTouched` | src/port/stm32h563/hsm_flash.c:275-308 | How many units a range touches and where each begins, as used to say where a failed call stopped |
| `HsmFlash.Flash.RewritePart` | src/port/stm32h563/hsm_flash.c:276-295 | Reading a unit, replacing a part and writing it back replaces exactly that part and stays inside the partition |
| `HsmFlash.Flash.WriteUnit` | src/port/stm32h563/hsm_flash.c:292-295 | Four word stores replace one unit |
| `HsmFlash.UnitWriteBack` | src/port/stm32h563/hsm_flash.c:288-295 | Writing back a unit of which a part was replaced replaces only that part |
| `HsmFlash.ProgrammedReadsBack` | src/port/stm32h563/hsm_flash.c:235-250 | What was programmed reads back and every other byte reads as before |
| `HsmFlash.Flash.Read` | src/port/stm32h563/hsm_flash.c:235-250 | Exactly the bytes of the range, or bad arguments |
| `HsmFlash.Flash.Verify` | src/port/stm32h563/hsm_flash.c:383-399 | OK exactly when the range holds the data |
| `HsmFlash.Flash.BlankCheck` | src/port/stm32h563/hsm_flash.c:401-417 | OK exactly when the range is all 0xFF |
| `HsmFlash.Flash.Erase` | src/port/stm32h563/hsm_flash.c:316-381 | Success erases exactly the range, one command per sector; an error at a sector of the range is always reported and leaves the sectors before it erased and the rest untouched |
| `HsmFlash.ErasedIsBlank` | src/port/stm32h563/hsm_flash.c:342-376 | Erasing sector after sector blanks exactly their bytes |
| `HsmFlash.CommandHitsItsSector` | src/port/stm32h563/hsm_flash.c:342-364 | The bank and sector arithmetic yields a bank bit and a sector below 128 that the hardware decodes to the very sector meant, banks swapped or not |
| `HsmFlash.ErasesEachSectorOnce` | src/port/stm32h563/hsm_flash.c:341-377 | The commands of one erase are pairwise distinct |
| `HsmFlash.EraseProgramVerify` | src/port/stm32h563/hsm_flash.c:235-417 | Erase, blank check, program, verify and read in sequence agree with each other and with the data |
| `HsmFlash.ServeAll` | src/port/stm32h563/hsm_flash.c:207-381 | For every sequence of lock, unlock, program and erase calls: a call is refused as locked exactly if it would write and the last lock or unlock before it was a lock, whatever ranges they name; the memory is unchanged if all writing calls are |
| `HsmFlash.Flash.Serve` | src/port/stm32h563/hsm_flash.c:207-381 | One call: the lock state after it, when it is refused as locked, and that nothing else writes |
| `HsmFlash.Flash.WriteLock` | src/port/stm32h563/hsm_flash.c:207-219 | Locks the whole partition whatever the range |
| `HsmFlash.Flash.WriteUnlock` | src/port/stm32h563/hsm_flash.c:221-233 | Unlocks the whole partition whatever the range |

## Left out

- Statistics counters, `flags`, `dst_mask` and the maximum, injected and coalesced tick counts: they influence nothing that is modelled.
- NULL arguments and uninitialised objects: state is always initialised and pointers are never NULL, except where NULL means "none".
- `vnet_pool_force_free`, `vnet_fdb_get_assigned`, `vnet_switch_irq_pending`, and the counting getters: each only reads one field or has no caller.
- VnetSwitch.Switch.ReadRx: the copied bytes are returned as a value instead of being written to a caller's buffer.
- Coroutine.Scheduler.Tick: one round of the loop; the budget, the canary check and the switch into and out of coroutine code are not modelled, since code of a coroutine runs in between.
- Coroutine.Scheduler.NewCo: stack set-up and argument checks on stacks are not modelled; a coroutine pointer is an index, so the pointer-validity panics have no counterpart.
- Mutex.SleepMutex.AcquireLock: ends where the caller leaves the CPU; the return as holder is `HsmSystem.AcquireReturnsAsHolder`. Preemption inside a mutex operation is not modelled, as the source takes these operations to be atomic.
- Monitor.Partitions.ScheduleNextGuest: one decision; the loop goes on after the tasklet returns, which is another step. Interrupt masks, MPU programming and the saved register context are hardware effects.
- HsmRuns.NoLostWakeup: for requests the server handles without an error of its own; a handler that fails otherwise blocks without an answer, and wolfHSM's handlers are not part of this model.
- HsmService.Service.Submit: the precheck of the active guest's range always succeeds, as the active guest is the current one.
- HsmService.Service.SignalTransport: the response counter and the guest's state only; the body of the fatal response is `Transport.Context.SignalFault`.
- HsmService.Boot: every initialisation succeeds, so every guest has a service.
- Transport.Context.Init: range checks on the guest's buffer and the connect callback; the CMSE checks before each access are foreign hardware checks taken to succeed.
- SysTick.VirtualSystick.SaveDeparting: register accesses become a parameter; writes to the hardware timer are those of `SysTickGuests.Platform`, which leaves out the vector table and the COUNTFLAG bit. The 64-bit cycle clock does not wrap.
- SysTickGuests.Platform.ClearGuest: the zeroed memory itself, and a window that is not the whole RAM of a guest, for which the timer is not reset.
- HsmFlash.Flash.Program: stores overwrite bytes, so the rule that flash bits only fall until erased is not modelled; unlock, lock and status registers are left out, and an error is a parameter.
- HsmFlash.Flash.Erase: sector size is the configured 8 KiB, and the partition lies on whole sectors inside the two banks as configured.
- Bounded time to an answer: bounded waiting is proved until a request's tasklet is entered (`HsmProgress.WaitingIsServed`), in decisions and lock hand-offs, not for how long a service computes.
- NSC veneers of the network service, UART, guest programs, RTOS glue, memory protection set-up and assembly: input/output plumbing and hardware.
