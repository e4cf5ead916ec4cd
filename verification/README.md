# Models and proofs for the firmware drivers and their CMSIS and lwIP support code

The project models the parts of the repository in which an invariant, an interleaving or an
arithmetic argument decides whether the code is right, and proves what they promise.

- `Basics.dfy`: what several models share.
- `RingSlots.dfy`, `EthDescriptors.dfy`: positions of a ring, descriptor words, and the chain that
  both rings are initialised to.
- `EthRx.dfy`, `EthRxProperties.dfy`, `EthRxDriver.dfy`: the Ethernet receive path. The first is a
  transition system in which the driver stops at every shared load and store and the DMA engine may
  move between any two; the second holds what all its runs keep; the third is the driver itself, as a
  class updated in place, whose every state is shown to be one the transition system reaches.
- `EthTx.dfy`, `EthTxProperties.dfy`, `EthTxDriver.dfy`: the same for the transmit path.
- `Pbufs.dfy`: pbuf chains, allocation from the pool, scatter and gather.
- `Mailbox.dfy`, `Semaphore.dfy`: the lwIP mailbox as a queue, and the waits around a callback.
- `NvicCodec.dfy`, `NvicPriority.dfy`: interrupt priorities packed in words and kept in bytes, and the
  code for preemption and subpriority.
- `Startup.dfy`, `BitLoops.dfy`: the start-up copy and zero loops, software RBIT and CLZ.
- `ZeroCopyRx.dfy`: pool entries and descriptors of the zero-copy receive sample.
- `Uart.dfy`, `Delay.dfy`: transmit loops with bounded polling, and delays split into timer reloads.

## What is assumed of the surroundings

- The MAC writes back only status words without OWN, and a whole frame with a length field, 4-byte FCS
  included (IEEE 802.3-2018, clause 3.2.9), of at least 4 and at most 1520.
- Writing a status bit clears it; any write to a poll demand register wakes the engine; the engine sets
  RBU or TBU in the step in which it suspends.
- Both chains are linked as the init functions of at32f4xx_eth.c (lines 1233-1266 and 1585-1619) link
  them: `EthDescriptors.ChainInit` models that loop.
- The transmit buffers are one array, as Tx_Buff is (src/at32f4xx/lwip-2.1.2/port/ethernetif.c:93),
  followed by other memory; a pbuf chain is at most 65535 bytes long, tot_len being a u16.
- The ring length is any positive number (4 and 2 at src/at32f4xx/lwip-2.1.2/port/ethernetif.c:88-89).
- lwIP is seen through its contracts: the verdict of netif->input and the pool's free buffers are
  parameters, waiting callbacks are arbitrary lists of visits, and UART flags an arbitrary function of
  the poll number.

## Where the code falls short of its purpose

- `low_level_input` stores through NULL when called while the ring holds nothing for it
  (src/at32f4xx/lwip-2.1.2/port/ethernetif.c:258 and 371-387). `EthRxProperties.FaultIffEnteredEmpty`
  says exactly when, `EthRxProperties.FaultHappens` gives the run.
- `low_level_output` copies before it tests ownership, does not look at the length, and returns
  ERR_OK even when the frame is refused (lines 204-216). `EthTxProperties.SafeIffFree` says exactly
  when a call may be made, `EthTxProperties.WireSafeIff` exactly which frames can put on the wire a
  frame that nobody handed over, and `EthTxProperties.OverrunHappens` gives such a run for every ring.
- A mailbox of n slots holds n - 1 messages when assertions are on
  (src/at32f4xx/lwip-2.1.2/port/sys_arch.c:265), so sys_mbox_trypost aborts where its callers expect
  ERR_MEM. `Mailbox.EffectiveCapacity` states it.
- With this port's empty SYS_ARCH_PROTECT (src/at32f4xx/lwip-2.1.2/port/arch/sys_arch.h:56-58) the
  zero-copy sample's ten entries serve nine descriptors only: `ZeroCopyRx.ShippedPool`.
- `HyUartSendBuf` counts in 16 bits: above 65535 bytes it ends only by a timeout (`Uart.SendBufEnds`,
  `Uart.EndlessSend`),
  and a flag first seen at the very last poll still counts as one (`Uart.PollsToTheFlag`).
- A copy table entry whose destination lies inside its own source does not move the data
  (src/hc32l13x/CMSIS/Include/cmsis_gcc.h:152-154): `Startup.CopyRightIffSafe`.
- Delays are short on clocks above 335 MHz unless they are short themselves:
  `Delay.ConservedIff`, `Delay.ShortDelay`.

## Model

| member | source | states |
|---|---|---|
| `EthRxProperties.OwnershipArc` | src/at32f4xx/lwip-2.1.2/port/ethernetif.c:227-271 | In every reachable interleaving, for any ring length, the driver's descriptors form one circular arc from the oldest descriptor not yet given back (the one in hand included) to the DMA cursor. |
| `EthRxProperties.CopyIsUndisturbed` | src/at32f4xx/lwip-2.1.2/port/ethernetif.c:245-258 | While a descriptor is in the driver's hand, no step but the driver's own changes its buffer or its status word, and the driver owns it. |
| `EthRxProperties.ExactlyOnceInOrder` | src/at32f4xx/lwip-2.1.2/port/ethernetif.c:227-303 | At all times the frames passed on or dropped, then the one in work, then the frames read from the ring's memory in ring order, equal the frames deposited; errored and partial entries are empty frames. |
| `EthRxProperties.FramesDelivered` | src/at32f4xx/lwip-2.1.2/port/ethernetif.c:227-303 | In every run, whatever frames the MAC wrote to the buffers, with their lengths in bits 29 to 16 of the status words: those passed on or dropped, the one in work and those in the ring are, in order and once each, exactly their bytes less the last four; errored and partial ones are empty. |
| `EthRxProperties.FrameArrives` | src/at32f4xx/lwip-2.1.2/port/ethernetif.c:390-405 | From any reachable state in which the engine has a descriptor and is awake, it can take in any frame of up to 1520 bytes with any status word the MAC may give it. |
| `EthRxProperties.FrameGoesThrough` | src/at32f4xx/lwip-2.1.2/port/ethernetif.c:227-303 | From every start-up, for every good frame of 4 to 1520 bytes, there is a run in which one call passes on exactly its bytes less the CRC. |
| `EthRxProperties.PayloadIsWorth` | src/at32f4xx/lwip-2.1.2/port/ethernetif.c:390-405 | The bytes the driver takes out of a deposit are the frame without its last four bytes, or none if bit 15 is set or bit 9 or bit 8 clear. |
| `EthRxProperties.NoLostWakeup` | src/at32f4xx/lwip-2.1.2/port/ethernetif.c:257-267 | The engine sleeps in front of a descriptor it owns only between the ownership store and the poll demand; with the driver idle and nothing waiting it is awake and owns the whole ring. |
| `EthRxProperties.AcceptsIffRoom` | src/at32f4xx/lwip-2.1.2/port/ethernetif.c:257-267 | In every run, outside the window between ownership store and poll demand, the engine takes in a next frame exactly while the driver holds fewer than all descriptors: it sleeps only on a full ring. |
| `EthRxProperties.FaultIffEnteredEmpty` | src/at32f4xx/lwip-2.1.2/port/ethernetif.c:371-387 | A run has stored through the NULL descriptor, or can come to it without a further call, exactly if low_level_input was called in it while no frame was waiting. |
| `EthRxProperties.DoomedReachesFault` | src/at32f4xx/lwip-2.1.2/port/ethernetif.c:371-387 | A call that found nothing and is left alone makes the store through NULL. |
| `EthRxProperties.FaultHappens` | src/at32f4xx/lwip-2.1.2/port/ethernetif.c:371-387 | From every start-up there is a run that stores through NULL: one call before any frame has arrived. |
| `EthRxProperties.CallsDrain` | src/at32f4xx/lwip-2.1.2/port/ethernetif.c:227-303 | Under every schedule, no more calls than frames waiting never fault and each adds one outcome; as many calls as frames have, once over, taken exactly those frames in order. |
| `EthRxProperties.CallAdvances` | src/at32f4xx/lwip-2.1.2/port/ethernetif.c:227-303 | Every driver step brings a call nearer to its end, no DMA step moves it back, and a call that found nothing can end only in the fault. |
| `EthRxProperties.StepDooms` | src/at32f4xx/lwip-2.1.2/port/ethernetif.c:371-387 | A step starts a faulting call exactly when it is a call that finds no frame waiting. |
| `EthRx.RunInv` | src/at32f4xx/lwip-2.1.2/port/ethernetif.c:227-303 | Every step of driver or DMA engine keeps the ring positions, the data in each descriptor and copy, and the wake-up condition. |
| `EthRx.EnterInv` | src/at32f4xx/lwip-2.1.2/port/ethernetif.c:371-374 | The ownership test sees the OWN bit exactly when every deposited frame has been taken. |
| `EthRx.ReleaseInv` | src/at32f4xx/lwip-2.1.2/port/ethernetif.c:258 | Giving back the descriptor in hand, by storing 0x8000_0000, keeps the invariant: it is the oldest, and becomes the engine's last. |
| `EthRx.NeverStuck` | src/at32f4xx/lwip-2.1.2/port/ethernetif.c:390-405 | Outside a fault the driver can always take its next step: the frame length never exceeds the buffer. |
| `EthRx.WakeInv` | src/at32f4xx/lwip-2.1.2/port/ethernetif.c:260-267 | The flag test changes nothing and decides what follows, the flag write clears RBU, the poll demand wakes the engine, and all three keep the invariant. |
| `EthRx.HardwarePayload` | src/at32f4xx/lwip-2.1.2/port/ethernetif.c:390-405 | For status words the hardware writes, the truncated 16-bit length is the frame length less the CRC, or 0 for an errored or partial entry. |
| `EthRxDriver.Driver.TestOwnership` | src/at32f4xx/lwip-2.1.2/port/ethernetif.c:371-387 | The result tells who owned the descriptor; when the engine owned it, reception has been resumed and the NULL store comes next. |
| `EthRxDriver.Driver.ResumeReception` | src/at32f4xx/lwip-2.1.2/port/ethernetif.c:260-267 | With DMA steps between the accesses, the driver goes on to the hand-over (or the NULL store), and the engine is awake: it was polled after the flag was cleared, or the flag was clear and it never slept. |
| `EthRxDriver.Driver.TakeDescriptor` | src/at32f4xx/lwip-2.1.2/port/ethernetif.c:390-414 | The descriptor taken is the cursor's, which the engine has given back, with its payload length (the bits of which EthDescriptors.PayloadOfStatus fixes), and the cursor moves to its successor. |
| `EthRxDriver.Driver.FillChain` | src/at32f4xx/lwip-2.1.2/port/ethernetif.c:245-254 | The scatter loop leaves in each pbuf its own piece of the bytes read from the descriptor's buffer, which gather back to them. |
| `EthRxDriver.Driver.Scatter` | src/at32f4xx/lwip-2.1.2/port/ethernetif.c:241-254 | NULL exactly when the pool is short of buffers; otherwise a fresh chain whose concatenated payloads are the bytes copied. |
| `EthRxDriver.Driver.LowLevelInput` | src/at32f4xx/lwip-2.1.2/port/ethernetif.c:227-271 | Faults exactly when every deposited frame was already taken; otherwise returns the oldest waiting frame in pbufs, or NULL exactly when the pool is too small for it, with its descriptor given back either way. |
| `EthRxDriver.Driver.EthernetifInput` | src/at32f4xx/lwip-2.1.2/port/ethernetif.c:283-303 | ERR_MEM and a dropped frame when the pool is short, otherwise the frame goes to netif->input once and its verdict is returned. |
| `EthRxDriver.EmptyMeansOwned` | src/at32f4xx/lwip-2.1.2/port/ethernetif.c:374 | Between calls the current descriptor is the engine's exactly when nothing is waiting. |
| `EthTxProperties.PublishedWhole` | src/at32f4xx/lwip-2.1.2/port/ethernetif.c:201-217 | While every call finds its descriptor free and fits its buffer, each descriptor with OWN set carries both segment bits, the right length and the whole frame, and the frames sent are a prefix of the frames handed over. |
| `EthTxProperties.OwnershipArc` | src/at32f4xx/lwip-2.1.2/port/ethernetif.c:428-463 | The engine's descriptors are one circular arc from its cursor, one per frame handed over and not sent, in every run. |
| `EthTxProperties.NoLostWakeup` | src/at32f4xx/lwip-2.1.2/port/ethernetif.c:443-453 | In every run the engine sleeps in front of work only between the ownership store and the poll demand. |
| `EthTxProperties.SafeIffFree` | src/at32f4xx/lwip-2.1.2/port/ethernetif.c:201-217 | A call is safe (whatever the DMA steps, nothing refused, wire right, no store outside the buffer) exactly when the current descriptor is the driver's, that is, when fewer frames than descriptors are waiting, and the frame fits the buffer. |
| `EthTxProperties.RefusedIfFull` | src/at32f4xx/lwip-2.1.2/port/ethernetif.c:431-435 | On a full ring a schedule refuses the frame, which low_level_output still reports as ERR_OK, and changes nothing else the driver keeps. |
| `EthTxProperties.WireSafeIff` | src/at32f4xx/lwip-2.1.2/port/ethernetif.c:201-217 | For frames of any length, a call leaves the wire a prefix of the frames handed over, under every schedule, exactly when the length fits the 13-bit field and the bytes stored, spilling into later buffers included, change no byte still to be read of a waiting frame. |
| `EthTxProperties.OverrunCorrupts` | src/at32f4xx/lwip-2.1.2/port/ethernetif.c:206-216 | One such changed byte has a schedule that puts on the wire a frame nobody handed over. |
| `EthTxProperties.OverlongCorrupts` | src/at32f4xx/lwip-2.1.2/port/ethernetif.c:438 | So has a frame of more than 8191 bytes: it goes out cut. |
| `EthTxProperties.OverlayHarmless` | src/at32f4xx/lwip-2.1.2/port/ethernetif.c:206-216 | Otherwise copying over waiting frames harms nothing at any point of any schedule. |
| `EthTxProperties.FillRing` | src/at32f4xx/lwip-2.1.2/port/ethernetif.c:428-463 | From every start-up, guarded calls without an engine step between fill the ring up to any number of descriptors. |
| `EthTxProperties.OverrunHappens` | src/at32f4xx/lwip-2.1.2/port/ethernetif.c:206-216 | For every ring length, one call too many on the full ring has a schedule that corrupts the wire. |
| `EthTxProperties.EveryFrameSent` | src/at32f4xx/lwip-2.1.2/port/ethernetif.c:443-453 | After any guarded run that ends between calls, the engine left alone makes a known number of steps and stops exactly when they are done, with every frame handed over sent. |
| `EthTxProperties.StoppedMeansDone` | src/at32f4xx/lwip-2.1.2/port/ethernetif.c:443-453 | An engine that cannot move while the driver is idle sleeps behind the last frame handed over. |
| `EthTx.RunInv` | src/at32f4xx/lwip-2.1.2/port/ethernetif.c:428-463 | Ring positions, ownership and the wake-up condition hold in every run, guarded or not. |
| `EthTx.RunGood` | src/at32f4xx/lwip-2.1.2/port/ethernetif.c:201-217 | In guarded runs each published descriptor is intact, the draft is as far as the driver has come, the sent frames are the first of those handed over, and none was refused. |
| `EthTx.AdmissibleAgrees` | src/at32f4xx/lwip-2.1.2/port/ethernetif.c:206-213 | A frame that fits its free buffer touches no byte of a waiting frame. |
| `EthTx.PublishSound` | src/at32f4xx/lwip-2.1.2/port/ethernetif.c:437-444 | The ownership store publishes a finished descriptor: length, segment bits and bytes are already in place. |
| `EthTx.RoomToEnter` | src/at32f4xx/lwip-2.1.2/port/ethernetif.c:431 | The current descriptor is the driver's exactly when the ring is not full. |
| `EthTx.WorkAtCursor` | src/at32f4xx/lwip-2.1.2/port/ethernetif.c:443-453 | The engine owns the descriptor at its cursor exactly while something is left to send. |
| `EthTx.WakeInv` | src/at32f4xx/lwip-2.1.2/port/ethernetif.c:447-463 | The test of TBU changes nothing and decides what follows, the flag write clears TBU, the poll demand wakes the engine, and these and the advance of the cursor keep the invariant. |
| `EthTx.PublishingStores` | src/at32f4xx/lwip-2.1.2/port/ethernetif.c:438-444 | The stores that publish a frame: the low 13 bits of its length to the control word, then bits 29 and 28, then bit 31 of the status word of the current descriptor, and no other word. |
| `EthTxDriver.Driver.Gather` | src/at32f4xx/lwip-2.1.2/port/ethernetif.c:207-213 | The gather loop ends with l the length of the whole chain and the chain's bytes written, a DMA step possible between any two. |
| `EthTxDriver.Driver.TestOwnership` | src/at32f4xx/lwip-2.1.2/port/ethernetif.c:431-435 | A descriptor free before the test passes it; one found owned refuses the frame and leaves the cursor and the frames handed over alone. |
| `EthTxDriver.Driver.WriteOwn` | src/at32f4xx/lwip-2.1.2/port/ethernetif.c:444 | The frame joins those handed over at this store and not before. |
| `EthTxDriver.Driver.TxPktChainMode` | src/at32f4xx/lwip-2.1.2/port/ethernetif.c:428-463 | Success hands exactly this frame over and advances the cursor; an error changes neither. |
| `EthTxDriver.Driver.LowLevelOutput` | src/at32f4xx/lwip-2.1.2/port/ethernetif.c:201-217 | Always ERR_OK: the chain's bytes are handed over as one frame, or refused, which takes an owned descriptor on entry; guarded calls of frames that fit keep the wire a prefix of the frames handed over. |
| `EthDescriptors.ChainInit` | src/at32f4xx/lwip-2.1.2/port/ethernetif.c:156-160 | Each descriptor's next address is its successor, the last one's the first. |
| `EthDescriptors.ChainIsOneCycle` | src/at32f4xx/lwip-2.1.2/port/ethernetif.c:410-414 | Following the chain k times reaches descriptor k modulo the ring length: one cycle through all of them. |
| `EthDescriptors.PayloadOfStatus` | src/at32f4xx/lwip-2.1.2/port/ethernetif.c:390-395 | For any status word with x in bits 29 to 16, the 16-bit length is x - 4 (modulo 65536) when bit 15 is clear and bits 9 and 8 are set, and 0 otherwise; the MAC may leave it exactly if bit 31 is clear and x is then 4 to 1520. |
| `Pbufs.PbufAlloc` | src/at32f4xx/lwip-2.1.2/src/core/pbuf.c:233-271 | NULL exactly when the pool has fewer buffers than the length needs; otherwise distinct fresh buffers whose lengths sum to it, 1500 bytes in all but the last. |
| `Pbufs.PoolCount` | src/at32f4xx/lwip-2.1.2/src/core/pbuf.c:233-271 | One buffer for every 1500 bytes begun, and one for a length of 0. |
| `Pbufs.GatherScatter` | src/at32f4xx/lwip-2.1.2/port/ethernetif.c:204-254 | A chain gathers to a frame exactly when it is filled as scatter fills it, for every split, so gather after scatter is the identity. |
| `Pbufs.ConcatSplit` | src/at32f4xx/lwip-2.1.2/port/ethernetif.c:207-213 | Where each payload of a chain lies in the gathered frame. |
| `Mailbox.Mbox.RingPositions` | src/at32f4xx/lwip-2.1.2/port/sys_arch.c:209-225 | head is (tail + used) modulo the size, and message i lies at (tail + i) modulo the size. |
| `Mailbox.Mbox.constructor` | src/at32f4xx/lwip-2.1.2/port/sys_arch.c:209-225 | A new mailbox is valid and empty, with 1024 slots for a requested size of 0. |
| `Mailbox.Mbox.Post` | src/at32f4xx/lwip-2.1.2/port/sys_arch.c:250-267 | Appends the message exactly when fewer than the capacity were queued; otherwise an assertion fails (or, without assertions, the ring overruns). |
| `Mailbox.Mbox.TryPost` | src/at32f4xx/lwip-2.1.2/port/sys_arch.c:270-284 | Agrees with the queue: ERR_MEM, unchanged, when every slot is used, else as post. |
| `Mailbox.Mbox.TryFetch` | src/at32f4xx/lwip-2.1.2/port/sys_arch.c:343-365 | Agrees with the queue: takes the front message off and hands it out, or drops it when msg is NULL, or reports an empty mailbox unchanged. |
| `Mailbox.Mbox.Fetch` | src/at32f4xx/lwip-2.1.2/port/sys_arch.c:293-340 | Agrees with the queue's fetch for every timeout and every behaviour of the callback watched; NULL is handed out on a timeout. |
| `Mailbox.NothingLostOrReordered` | src/at32f4xx/lwip-2.1.2/port/sys_arch.c:250-284 | Over any run, what was queued and what was accepted is what was delivered and what is still queued, in order. |
| `Mailbox.EffectiveCapacity` | src/at32f4xx/lwip-2.1.2/port/sys_arch.c:258-266 | Runs with assertions hold at most size - 1 messages, never see ERR_MEM, and break if and only if some post finds size - 1 queued, where they end. |
| `Mailbox.FetchTakesOneOrNone` | src/at32f4xx/lwip-2.1.2/port/sys_arch.c:293-340 | A fetch that delivers takes the front of the queue as its k-th callback left it, earlier ones having left nothing, after min(k, SYS_ARCH_TIMEOUT - 1) rounds; one that times out or waits on takes nothing from an empty queue. |
| `Mailbox.FetchEnds` | src/at32f4xx/lwip-2.1.2/port/sys_arch.c:293-340 | For every queue, timeout and callback: exactly when a fetch delivers, times out, waits on, or fails an assertion. |
| `Mailbox.WaitEnds` | src/at32f4xx/lwip-2.1.2/port/sys_arch.c:312-320 | An endless wait is woken exactly if some callback leaves a message with all earlier ones leaving none and no check failing, fails exactly if a check fails first, and goes on exactly if no callback does either. |
| `Mailbox.FetchIsARun` | src/at32f4xx/lwip-2.1.2/port/sys_arch.c:293-340 | A fetch that returns leaves the queue, and answers, as its callbacks' operations and one tryfetch run in sequence would, so conservation and capacity hold with blocking fetches too. |
| `Mailbox.WokenAtFirstMessage` | src/at32f4xx/lwip-2.1.2/port/sys_arch.c:312-320 | A woken wait ended at the first callback that left a message, not before and not later. |
| `Semaphore.Sem.Wait` | src/at32f4xx/lwip-2.1.2/port/sys_arch.c:98-137 | Success takes exactly one count from what the last callback left and reports fewer rounds than SYS_ARCH_TIMEOUT; a timeout takes none. |
| `Semaphore.Sem.Signal` | src/at32f4xx/lwip-2.1.2/port/sys_arch.c:140-146 | One more count. |
| `Semaphore.WakeAt` | src/at32f4xx/lwip-2.1.2/port/sys_arch.c:110-118 | Where an endless wait ends: the first callback that leaves a count or fails a check. |
| `Semaphore.CleanIffPaired` | src/at32f4xx/lwip-2.1.2/port/sys_arch.c:173-193 | Lock and unlock pass every assertion exactly in sequences that alternate, lock first. |
| `Semaphore.Mutex.Do` | src/at32f4xx/lwip-2.1.2/port/sys_arch.c:173-193 | The counter after each operation, and whether its assertions hold. |
| `NvicPriority.PackedRefinesBytes` | src/hc32l13x/CMSIS/Include/core_armv8mbl.h:1449-1484 | From equal memory (the bytes of each word, lowest first, are the byte registers), any sequence of sets and gets returns the same priorities on packed words as on bytes, for any number of words and any width 1 to 8. |
| `NvicPriority.PackedSetStores` | src/hc32l13x/CMSIS/Include/core_armv8mbl.h:1449-1461 | A packed set changes exactly one byte of memory: the one at the interrupt number, or for a system handler at number + 12, so that the priority lies in bits 8j to 8j + 7 of word irqn / 4 with j = irqn mod 4. |
| `NvicPriority.ByteSetStores` | src/hc32l13x/CMSIS/Include/core_armv8mml.h:2249-2259 | A byte set stores the same byte at the same place. |
| `NvicPriority.AgreeIsSameMemory` | src/hc32l13x/CMSIS/Include/core_armv8mbl.h:1239-1241 | All fields read through the index macros are equal exactly if memory is. |
| `NvicPriority.FieldIsByte` | src/hc32l13x/CMSIS/Include/core_armv8mbl.h:1239-1241 | The field the macros select is the byte of memory at the interrupt number, or at 12 plus a handler number. |
| `NvicPriority.FieldBits` | src/hc32l13x/CMSIS/Include/core_armv8mml.h:2253 | The byte stored holds the implemented bits of the priority at its top and zeros below. |
| `NvicPriority.GetReads` | src/hc32l13x/CMSIS/Include/core_armv8mbl.h:1473-1484 | A get returns the implemented bits of that byte, whatever was stored there. |
| `NvicPriority.SetKeepsAgreement` | src/hc32l13x/CMSIS/Include/core_armv8mml.h:2249-2259 | The same set on both register files keeps every field of both equal. |
| `NvicPriority.PackedSetFrame` | src/hc32l13x/CMSIS/Include/core_armv8mbl.h:1449-1461 | A packed set changes the field of its own interrupt and of no other. |
| `NvicPriority.ByteSetFrame` | src/hc32l13x/CMSIS/Include/core_armv8mml.h:2249-2259 | So does a byte set, for the last twelve exceptions too. |
| `NvicPriority.GetAfterSet` | src/hc32l13x/CMSIS/Include/core_armv8mbl.h:1473-1484 | A get sees the last set of its own interrupt, cut to the implemented bits, and no other set. |
| `NvicPriority.IndicesInRange` | src/hc32l13x/CMSIS/Include/core_armv8mbl.h:1239-1241 | For device interrupts and the last eight exceptions every index macro of the packed core stays inside its array. |
| `NvicPriority.ByteIndicesInRange` | src/hc32l13x/CMSIS/Include/core_armv8mml.h:2253-2257 | For device interrupts and the last twelve exceptions so do those of the byte core. |
| `NvicPriority.PackedHandlersOnly` | src/hc32l13x/CMSIS/Include/core_armv8mbl.h:1240 | Of the exceptions, exactly the last eight have a field in the two handler words, and the last twelve a handler byte. |
| `NvicPriority.SlotsDiffer` | src/hc32l13x/CMSIS/Include/core_armv8mbl.h:1239-1241 | Two interrupts never share both word and lane. |
| `NvicPriority.LaneOfWithLane` | src/hc32l13x/CMSIS/Include/core_armv8mbl.h:1453-1459 | A read-modify-write of one byte changes that byte of the word only. |
| `NvicPriority.LevelOfField` | src/hc32l13x/CMSIS/Include/core_armv8mml.h:2249-2282 | A field holds the implemented bits of a priority and nothing else. |
| `NvicPriority.ByteGetAfterSet` | src/hc32l13x/CMSIS/Include/core_armv8mml.h:2249-2282 | The same for the byte registers. |
| `NvicPriority.PairThroughRegisters` | src/hc32l13x/CMSIS/Include/core_armv8mbl.h:1449-1536 | An encoded pair set in packed words, read back and decoded is the pair, each part cut to its bits. |
| `NvicPriority.PairThroughBytes` | src/hc32l13x/CMSIS/Include/core_armv8mml.h:2249-2334 | The same for the byte registers. |
| `NvicPriority.PackedRegisters.SetPriority` | src/hc32l13x/CMSIS/Include/core_armv8mbl.h:1449-1461 | The registers after the store are the packed set of what they were. |
| `NvicPriority.ByteRegisters.SetPriority` | src/hc32l13x/CMSIS/Include/core_armv8mml.h:2249-2259 | The registers after the store are the byte set of what they were. |
| `NvicCodec.BitsSplit` | src/hc32l13x/CMSIS/Include/core_armv8mml.h:2301-2302 | Preemption and subpriority bits sum to the width, wrap-around included, and preemption has as many as width and group allow: the smaller of the width and 7 - group. |
| `NvicCodec.BinaryPoint` | src/hc32l13x/CMSIS/Include/core_armv8mml.h:2295-2334 | In the 8-bit field of a priority, preemption is what lies above bit group and subpriority what lies at it and below, without the bits not implemented. |
| `NvicCodec.CutIsLowBits` | src/hc32l13x/CMSIS/Include/core_armv8mml.h:2304-2307 | Cutting a part to its width keeps its low bits and clears the others. |
| `NvicCodec.DecodeAfterEncode` | src/hc32l13x/CMSIS/Include/core_armv8mml.h:2295-2334 | Decoding an encoded pair gives each part cut to its bits; the code fits the width. |
| `NvicCodec.EncodeAfterDecode` | src/hc32l13x/CMSIS/Include/core_armv8mml.h:2295-2334 | Encoding a decoded priority gives its implemented bits back, itself when it fits. |
| `NvicCodec.EncodeIsLexicographic` | src/hc32l13x/CMSIS/Include/core_armv8mml.h:2295-2309 | Encoded order is lexicographic on (preemption, subpriority). |
| `Startup.CmsisStart` | src/hc32l13x/CMSIS/Include/cmsis_gcc.h:151-161 | Memory after the nested loops is the tables' copies and clears applied in order, for any tables that fit it. |
| `Startup.StartupMemory` | src/hc32l13x/CMSIS/Include/cmsis_gcc.h:151-161 | For tables of any length whose destinations overlap no other destination, no zero region and no later source (a copy may move down over its own): every destination holds its source's original words, every zero region is zero, every other word is unchanged. |
| `Startup.CopiesAt` | src/hc32l13x/CMSIS/Include/cmsis_gcc.h:151-155 | No earlier copy reaches a later one's source and no later one its destination. |
| `Startup.CopyAt` | src/hc32l13x/CMSIS/Include/cmsis_gcc.h:152-154 | A copy apart from its source, or downwards over it, leaves at each word of its destination the source's original word. |
| `Startup.CopyRightIffSafe` | src/hc32l13x/CMSIS/Include/cmsis_gcc.h:152-154 | A copy leaves its source's words at its destination for every memory exactly when the destination does not start inside the source behind its first word; there it repeats the first words. |
| `Startup.CopiesLeave` | src/hc32l13x/CMSIS/Include/cmsis_gcc.h:151-155 | Words outside the destinations keep their contents, whatever the copies overlap. |
| `Startup.ZerosAt` | src/hc32l13x/CMSIS/Include/cmsis_gcc.h:157-161 | A word is zero exactly if some zero region holds it, and unchanged otherwise. |
| `BitLoops.Rbit` | src/hc32l13x/CMSIS/Include/cmsis_gcc.h:1057-1068 | The early-exit loop computes the reversal for every word. |
| `BitLoops.ReverseBit` | src/hc32l13x/CMSIS/Include/cmsis_iccarm.h:540-551 | Bit i of the reversal is bit 31 - i. |
| `BitLoops.ReverseBitValue` | src/hc32l13x/CMSIS/Include/cmsis_iccarm.h:540-551 | The same as an equation of shifts and masks. |
| `BitLoops.ReverseTwice` | src/hc32l13x/CMSIS/Include/cmsis_iccarm.h:540-551 | The reversal is its own inverse. |
| `BitLoops.ReversingRound` | src/hc32l13x/CMSIS/Include/cmsis_gcc.h:1058-1063 | After n rounds, with s = 31 - n, the low n + 1 bits are those of the word the other way round. |
| `BitLoops.Clz` | src/hc32l13x/CMSIS/Include/cmsis_iccarm.h:525-538 | Terminates with 32 for zero and the number of leading zeros otherwise. |
| `BitLoops.LeadingZerosBounds` | src/hc32l13x/CMSIS/Include/cmsis_iccarm.h:525-538 | n leading zeros means 2^(31-n) <= v < 2^(32-n). |
| `BitLoops.LeadingZerosUnique` | src/hc32l13x/CMSIS/Include/cmsis_iccarm.h:525-538 | A word has one number of leading zeros. |
| `BitLoops.LeadingOfReverse` | src/hc32l13x/CMSIS/Include/cmsis_iccarm.h:525-551 | The leading zeros of the reversal are the trailing zeros of the word. |
| `ZeroCopyRx.NeverDryIffSufficient` | src/at32f4xx/lwip-2.1.2/doc/ZeroCopyRx.c:7-45 | The pool allocation in the interrupt always succeeds exactly when there are at most as many descriptors as entries behind a protected section, and fewer without one. |
| `ZeroCopyRx.ShippedPool` | src/at32f4xx/lwip-2.1.2/doc/ZeroCopyRx.c:7 | The ten entries serve up to ten descriptors when protected, nine when SYS_ARCH_PROTECT is empty. |
| `ZeroCopyRx.EntryFreedOnce` | src/at32f4xx/lwip-2.1.2/doc/ZeroCopyRx.c:9-45 | In every run each pool entry is freed exactly as often as taken, less one while it is held. |
| `ZeroCopyRx.DescriptorFreedOnce` | src/at32f4xx/lwip-2.1.2/doc/ZeroCopyRx.c:9-45 | The same for each DMA descriptor. |
| `ZeroCopyRx.NoDoubleFree` | src/at32f4xx/lwip-2.1.2/doc/ZeroCopyRx.c:19-22 | The hook never frees what is already free, and no two pbufs in use share a descriptor. |
| `ZeroCopyRx.RunInv` | src/at32f4xx/lwip-2.1.2/doc/ZeroCopyRx.c:9-45 | Entries and descriptors are each in one place, one to one for pbufs in use, over all interleavings. |
| `ZeroCopyRx.DryRun` | src/at32f4xx/lwip-2.1.2/doc/ZeroCopyRx.c:9-45 | An insufficient set-up has a run in which the interrupt stores through NULL. |
| `ZeroCopyRx.Driver.EthRxIrq` | src/at32f4xx/lwip-2.1.2/doc/ZeroCopyRx.c:25-45 | Faults exactly on an empty pool; an accepted frame takes one entry and its descriptor, a refused one neither. |
| `ZeroCopyRx.Driver.MyPbufFreeCustom` | src/at32f4xx/lwip-2.1.2/doc/ZeroCopyRx.c:9-23 | Protected, it gives back exactly its entry and descriptor; with a sufficient set-up the interrupts in between never fault. |
| `Uart.PollsToTheFlag` | src/at32f4xx/hy_uart.c:193-199 | A wait uses up its polls exactly when none but perhaps the last finds the flag; otherwise it stops at the first that does. |
| `Uart.SendByte` | src/at32f4xx/hy_uart.c:181-202 | -1 without a handle; otherwise the byte is written once and returned, or EOF, within 0x1CE2 polls. |
| `Uart.SendBuf` | src/at32f4xx/hy_uart.c:204-232 | For any length: ends at the first pass after which the loop does not go on, returns the bytes acknowledged cut to 16 bits, and has written one byte a pass, its index starting over after 65536, within 0x1CE2 polls a pass. |
| `Uart.SendBufPrefix` | src/at32f4xx/hy_uart.c:214-231 | For lengths up to 65535 it ends within max(len, 1) passes with the length of the longest prefix acknowledged in time, which was written, and one byte more if it is not all. |
| `Uart.SendBufEnds` | src/at32f4xx/hy_uart.c:214-229 | The loop ends exactly when the length fits the 16-bit counter or some byte is not acknowledged. |
| `Uart.EndlessSend` | src/at32f4xx/hy_uart.c:214-229 | With 65536 bytes and a port that always acknowledges it never ends. |
| `Uart.Write` | src/at32f4xx/hy_uart.c:277-299 | -1 for fd > 2; otherwise the length of the text up to the first NUL or len, with exactly its expansion sent to a live port. |
| `Uart.CollapseExpand` | src/at32f4xx/hy_uart.c:290-297 | Dropping the byte after each newline recovers the text, whatever it contains. |
| `Uart.ExpandAt` | src/at32f4xx/hy_uart.c:290-297 | Each byte 10 of the text goes out as 10 and 13, every other byte as itself, displaced by one for each 10 before it, and nothing else goes out. |
| `Uart.TextLengthMeans` | src/at32f4xx/hy_uart.c:290 | The length returned is the first position at which a 0 stands or len is reached. |
| `Delay.DelayConserved` | src/at32f4xx/hy_system.c:67-84 | For 1 <= fac_ms <= 335544: ceil(ms / 50) reloads, none zero or above 24 bits, the exact products, adding up to ms * fac_ms. |
| `Delay.ReloadCount` | src/at32f4xx/hy_system.c:73-83 | ceil(ms / 50) reloads on any clock. |
| `Delay.ReloadAt` | src/at32f4xx/hy_system.c:67-84 | On any clock, reload i is the low 24 bits of min(ms - 50 * i, 50) * fac_ms; the cut to 32 bits on the way loses nothing more. |
| `Delay.ConservedIff` | src/at32f4xx/hy_system.c:67-84 | For any clock the reloads add up to the time exactly when the longest fits 24 bits, and are never more. |
| `Delay.ShortDelay` | src/at32f4xx/hy_system.c:67-84 | At 335545 ticks a millisecond a delay of 50 ms is short. |
| `Delay.SysTick.DelayMs` | src/at32f4xx/hy_system.c:67-84 | The values the loop writes to LOAD, as that register keeps them, are the split of the time. |
| `Delay.SysTick.DelayS` | src/at32f4xx/hy_system.c:86-92 | 20 reloads a second, which add up to 1000 * s * fac_ms exactly when s is 0 or a 50 ms step fits 24 bits. |

## Left out

- EthRxDriver.Driver.LowLevelInput: on an empty ring the source also allocates an empty pbuf before it stores through NULL; the allocation is not modelled, as nothing follows the fault.
- EthTxDriver.Driver.TestOwnership: the guarantee is for a descriptor free on entry; on a full ring the engine may or may not free it in time, and both ends are allowed.
- Mailbox.Mbox.Fetch: a callback is the list of posts and fetches it makes; by Mailbox.FetchIsARun that covers a fetch that blocks inside the callback of another and returns, but not the assertions inside it.
- Mailbox.Mbox.constructor: malloc always succeeds, as the source does not test it.
- Semaphore.Sem.Wait: counts are unbounded; overflow of the C int is not modelled.
- Startup.CmsisStart: memory is word-addressed; the tables themselves are not stored in it, and _start is not called.
- Uart.SendBuf: is watched for a given number of passes, as the source need not end for lengths above 65535; Uart.SendBufEnds says when it does.
- Delay.SysTick.DelayMs: the values programmed are modelled, not the busy-wait of _delay_com on the count flag.
- ZeroCopyRx.Driver.MyPbufFreeCustom: one thread frees at a time, and a single pool or descriptor operation is atomic; two unprotected threads freeing together are not modelled.
- Descriptor words and memory are sequences in fields of the driver, and a pbuf chain is a sequence of payload arrays: addresses, next pointers and aliasing between buffers are not captured.
- What a transmit frame longer than its buffer overwrites behind Tx_Buff: those bytes change in the model, but no variable of the program is placed there.
- Reference counts, pbuf_free and what lwIP does with a frame after netif->input.
- Memory ordering between the store of OWN and earlier stores: accesses take effect in program order.
- sys_sem_free, sys_mbox_free, the set_invalid functions and NULL checks of sys_arch.c: single assignments and assertions.
- HySystemDelayUs, hy_time.c and the bring-up of peripherals: no invariant of their own.
- low_level_init and ethernetif_init: plain assignments; their result is the initial ring state.
- The _NS (TrustZone) variants and core_cm0.h, core_armv81mml.h, cmsis_armcc.h, cmsis_armclang.h: copies of the functions modelled; core_cm0plus.h is the instance of the packed model with 8 words.
