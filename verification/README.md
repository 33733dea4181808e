# CherryUSB core: a verified model

This project models the core logic of CherryUSB, a USB device, host and OTG stack written in C, and proves what
that logic keeps over every input and every run:

- the **control endpoint** of the device stack as interrupts drive it (`ControlEndpoint`), against a controller
  that may split completions in any way and an application whose request handler may answer anything;
- the **byte ring buffer** (`RingBuffer`), the same ring shared without a lock by one writer and one reader
  (`RingConcurrent`), the **block pool** built on two rings and a semaphore (`Mempool`), the same pool shared
  without a lock by the parties that allocate, free, send and receive (`MempoolConcurrent`), and the word-wise block
  copy underneath (`Memcpy`);
- **configuration descriptors**: the initialiser macros (`Descriptors`), the host's parser (`ConfigParser`) and
  the device's two walks (`ConfigWalker`), and one configuration byte by byte (`LiteralConfiguration`);
- the **device-address allocator** (`DeviceAddress`) and the life of addresses on hub ports (`HubportLifeCycle`);
- **string descriptors** (`StringDescriptor`), the **intrusive lists** (`Lists`) and the **OTG role change**
  (`OtgRoleChange`).

`EndToEnd` joins them: a configuration or string that the device's control endpoint sends, in however many
pieces, is the one the host decodes, and device and host agree on the endpoints. `MachineWords` holds the 32-bit
index arithmetic, with its wrap-around, and little-endian words; `Listings` compares listings in different orders;
`UsbDefs` has the constants that several modules share.

## How the model is built

What the C code updates in place is a class or an array here, and each method is proved against a function on
values: `View() == OnSetup(old(View()), ...)` and the like. The theorems are about those functions, and state what
they do without them: in numbers, bytes and the configuration's own terms. Behaviour over
time is a state machine: `Enabled` says which event may happen, `Apply` or `Step` what it does, `IsRun` that a
list of events is a run, and the theorems quantify over all runs from power-up. Threads appear as steps, one for
each load, byte copy and store, interleaved in any order over a sequentially consistent memory. Where a method
takes a ghost sequence (`ns` in `Lists`, `ds` in `ConfigWalker`), that is the list or the descriptors its memory holds.

The configuration modelled is the default one: request buffer of 512 bytes, 64-byte control packets, replies copied
into the request buffer, interrupt handling without the control-endpoint thread; at most 8 interfaces, 2 alternate
settings and 4 endpoints on the host; 32-bit pointers.

What the methods ask of their callers comes from the code: the zero sentinel that the host writes behind a received
configuration, anywhere inside its buffer; a zero terminator for a walk of the device only where it does not meet its
own length bound (`ConfigWalker.EncodedLaidOut` says when); blocks of a pool that end inside the address space.
Where the code reaches behind a buffer, the model reaches too: the parser takes what lies behind its buffer as a
parameter (`beyond`), and the string methods write into a `memory` that starts with the buffer and goes on behind it.
Lemmas then say exactly which inputs make that happen.

## Findings

Where a plausible property fails of the code, the model keeps the code. A lemma says exactly when the property
holds, and another shows an input that fails where that is not plain from the condition.

- The host's string decoder checks for `(len - 2) / 2` characters and writes `(len - 1) / 2`: for an odd length byte it
  may write one byte more than the output holds (`DecoderOverrunExample` at length byte 27 and 12 characters of
  room; `DecoderOverrunsExactly`).
- The device's string encoder computes sizes in 16 bits: a string whose total size wraps is accepted and written past
  the request buffer (`EncoderOverrunExample`, `EncoderOverrunsExactly`).
- The host's configuration parser copies an interface or endpoint header before it checks that the descriptor ends
  inside the configuration, so a header in the last bytes of a full buffer is read past its end
  (`ReadsBeyondExample` at 511 bytes in the buffer of 512). A configuration of some length can do this if and only if
  the buffer has fewer than seven bytes of room behind it, so at lengths 506 to 511 (`ReadsBeyondExactly`). The parser
  refuses every such input, and what it read never decides whether a parse succeeds (`BeyondIrrelevant`).
- A reply of length 0 to a control-IN request with a data stage sends two zero-length packets, not one
  (`EmptyReplySendsTwo`, `EmptyReplyExample`; one for any other short reply that fills its packets, `ControlIn`). The
  test for the closing zero-length packet uses 64, not the endpoint's size.
- An OUT request that exceeds the request buffer stalls and leaves every field of the engine as it was. The engine is
  idle outside SETUP if and only if that request came while it was outside SETUP (`OversizedKeepsState`,
  `StaleStateExample`, `SetupLeavesIdle`, `QuietMeansSetup`).
- An overwrite larger than the ring keeps the first bytes of its input, up to the capacity, not the last
  (`OverwriteExample`, `OverwriteKeepsLastExactly`).
- A pool reset leaves the semaphore as it is, so a later send may queue its block and report a timeout
  (`SendReportsFailure`). The count is exact throughout a run if and only if no reset finds a block queued
  (`SemExactExactly`); in general a send reports success if and only if the count is below its maximum
  (`SendAnswer`). Receiving stays exact with resets.
- A pool reset makes a block that a client still holds free a second time: it conserves the blocks if and only if
  none is held (`ResetConservesExactly`).
- Creation accepts blocks of size zero, which all have the same address: no address is ever in two places if and only
  if the blocks have a size or there is only one (`NoDuplicates`).
- An enumeration that finds no address left returns a success (`EnumerateResult`, an equivalence).
- A failed SET_ADDRESS, an address abandoned by a new connect or enumeration, and a release of address 127 each
  leave an address marked; nothing else does (`LeakExactly`, an equivalence), and it stays so for good
  (`LeakedForGood`).
- A string comes back from the host's decoder if and only if it has at most 126 characters, although the device
  accepts up to 255 (`StringDescriptor.RoundTrip`).
- Both walks of the device return the answer of the last call they made, not of all of them
  (`FailureHiddenExample`). A success means that every call succeeded, whatever the driver answers, if and only if the
  configuration makes the walk call at most once (`FailureHiddenExactly`). A SET_INTERFACE without matching endpoints fails
  (`WalkEncoded`).
- `usb_slist_insert` goes on after inserting and repeats its two stores once, to no effect; with a null position it
  dereferences the null pointer (`Lists.Insert`).

## Model

| member | source | states |
|---|---|---|
| ControlEndpoint.UsbdCore.SetupComplete | core/usbd_core.c:1016-1095 | the SETUP interrupt takes the engine to `OnSetup` of its state, packet and handler reply: oversized, OUT, refused and IN cases |
| ControlEndpoint.UsbdCore.SendReply | core/usbd_core.c:1057-1094 | the smaller of the lengths asked and offered is copied to the request buffer and started; the zero-length-packet flag is set for a short reply that fills its packets |
| ControlEndpoint.UsbdCore.InComplete | core/usbd_core.c:1110-1158 | the IN interrupt takes the engine to `OnIn`: rest of the data, zero-length packet, OUT status or back to SETUP |
| ControlEndpoint.UsbdCore.OutComplete | core/usbd_core.c:1160-1200 | the received bytes are in the buffer and the engine is in `OnOut`: rest of the data, the handler's call, or back to SETUP |
| ControlEndpoint.UsbdCore.ResetEvent | core/usbd_core.c:986-1014 | a bus reset clears the address, the configuration and the speed, drops what is outstanding and returns to SETUP |
| ControlEndpoint.DirectionBit | common/usb_def.h:64-66 | a request is device to host iff bit 7 of bmRequestType is set, whatever its other bits |
| ControlEndpoint.SetupHands | core/usbd_core.c:1035-1055 | over every run, a SETUP calls the handler unless data for the device comes first, and hands it the packet, the start of `req_data` and wLength |
| ControlEndpoint.BusReset | core/usbd_core.c:986-1014 | over every run, a bus reset leaves nothing outstanding, the engine in SETUP and the handler uncalled |
| ControlEndpoint.StepInv | core/usbd_core.c:1016-1200 | any SETUP, completion or reset, in any state that satisfies the invariant, stays within the buffer and the residue and keeps the invariant |
| ControlEndpoint.EngineConsistent | core/usbd_core.c:1016-1200 | over every run, an outstanding transfer agrees with `ep0_next_state` in direction and length, and buffer offset plus residue is the length of the data stage, at most 512 |
| ControlEndpoint.EveryEventInBounds | core/usbd_core.c:1116-1118 | over every run, no completion a controller can deliver underflows the residue or leaves the request buffer |
| ControlEndpoint.ControlIn | core/usbd_core.c:1057-1148 | over every run and every split, the host receives a prefix of the first min(len, wLength) bytes offered; at the status stage exactly these, then one zero-length packet iff len < wLength and 64 divides len |
| ControlEndpoint.EmptyReplySendsTwo | core/usbd_core.c:1079-1094 | an empty reply to a request for data sends exactly two zero-length packets and no data |
| ControlEndpoint.EmptyReplyExample | core/usbd_core.c:1079-1094 | a run with two zero-length packets ahead of the status stage |
| ControlEndpoint.NoDataRequest | core/usbd_core.c:1079-1085 | an accepted request without a data stage ends with exactly one zero-length IN packet, and in SETUP |
| ControlEndpoint.RefusedIn | core/usbd_core.c:1050-1063 | a refused reply, or one that does not fit, sends nothing, stalls and ends in SETUP |
| ControlEndpoint.ControlOut | core/usbd_core.c:1172-1199 | over every run, the handler runs at most once and exactly when all wLength bytes are in; the pointer and length it is handed give those bytes in order; then one IN status or a stall; an early end calls nothing |
| ControlEndpoint.CompletionsTerminate | core/usbd_core.c:1110-1200 | every completion lowers a measure of at most 515 whose zero is the SETUP state, so no transfer goes on forever |
| ControlEndpoint.SetupLeavesIdle | core/usbd_core.c:1028-1033 | in every reachable state, a SETUP leaves the engine idle outside SETUP iff it is an oversized OUT request taken outside SETUP |
| ControlEndpoint.CompletionsKeepSetup | core/usbd_core.c:1110-1200 | in every reachable state, no completion and no bus reset leaves the engine idle outside SETUP |
| ControlEndpoint.QuietMeansSetup | core/usbd_core.c:1028-1033 | a run ends idle outside SETUP iff its last event is an oversized OUT request taken outside SETUP |
| ControlEndpoint.OversizedKeepsState | core/usbd_core.c:1028-1033 | an oversized OUT request stalls and changes no field but the latched packet |
| ControlEndpoint.StaleStateExample | core/usbd_core.c:1028-1033 | a run that ends idle in the IN data state |
| RingBuffer.Ring.Init | common/usb_ringbuffer.h:34-54 | succeeds iff the size is a power of two of at least 2, and the ring is then empty |
| RingBuffer.Ring.Reset | common/usb_ringbuffer.h:63-67 | the ring is empty with both indices zero |
| RingBuffer.Ring.ResetRead | common/usb_ringbuffer.h:77-80 | the reader discards everything |
| RingBuffer.Ring.Write | common/usb_ringbuffer.h:258-281 | accepts as many bytes as are free and appends exactly these to the contents, whatever the alignment, the fold and the 32-bit wrap |
| RingBuffer.Ring.Overwrite | common/usb_ringbuffer.h:293-320 | the contents become the last capacity bytes of the old contents followed by the first min(size, capacity) bytes of the input |
| RingBuffer.OverwriteKeepsLastExactly | common/usb_ringbuffer.h:301-307 | these are the last bytes of contents and input iff the input fits the ring or its first capacity bytes equal its last |
| RingBuffer.OverwriteExample | common/usb_ringbuffer.h:301-307 | three bytes into a ring of two keep the first two |
| RingBuffer.Ring.Peek | common/usb_ringbuffer.h:333-353 | fetches a prefix of the contents, as long as asked or all, and changes nothing else |
| RingBuffer.Ring.Read | common/usb_ringbuffer.h:366-371 | the bytes fetched followed by the new contents are the old contents |
| RingBuffer.Ring.Drop | common/usb_ringbuffer.h:383-394 | removes a prefix of the contents |
| RingBuffer.Ring.WriteByte | common/usb_ringbuffer.h:155-164 | fails iff full, otherwise appends |
| RingBuffer.Ring.OverwriteByte | common/usb_ringbuffer.h:176-185 | appends, losing the oldest byte when full |
| RingBuffer.Ring.PeekByte | common/usb_ringbuffer.h:198-206 | fails iff empty, otherwise the oldest byte |
| RingBuffer.Ring.ReadByte | common/usb_ringbuffer.h:219-225 | fails iff empty, otherwise takes the oldest byte |
| RingBuffer.Ring.DropByte | common/usb_ringbuffer.h:237-245 | fails iff empty, otherwise removes the oldest byte |
| RingBuffer.Ring.LinearWriteSetup | common/usb_ringbuffer.h:404-424 | a contiguous run of free slots at the write index, empty iff full, short of all free ones only at the pool's end |
| RingBuffer.Ring.LinearReadSetup | common/usb_ringbuffer.h:434-454 | a contiguous prefix of the contents in place, empty iff empty, short of all only at the pool's end |
| RingBuffer.Ring.LinearWriteDone | common/usb_ringbuffer.h:464-475 | publishing slots the client filled appends what it put there |
| RingBuffer.AdvanceUnread | common/usb_ringbuffer.h:383-394 | moving the read index, also through 2^32, drops exactly the oldest bytes of the unread window |
| RingBuffer.PublishUnread | common/usb_ringbuffer.h:258-281 | moving the write index, also through 2^32, over stored bytes appends exactly them |
| MachineWords.Pow2Test | common/usb_ringbuffer.h:34-54 | `size & (size - 1)` is zero iff the size is a power of two |
| MachineWords.MaskIsMod | common/usb_ringbuffer.h:258-281 | an index under the mask is the index modulo the capacity |
| MachineWords.SlotAdvance | common/usb_ringbuffer.h:258-281 | adding to a wrapping 32-bit index moves its slot around the ring, because the capacity divides 2^32 |
| RingConcurrent.StepInv | common/usb_ringbuffer.h:155-394 | every load, copy and store of either thread keeps the shared invariant |
| RingConcurrent.LockFreeFifo | common/usb_ringbuffer.h:145-147 | over every interleaving, bytes read are the bytes accepted at the same position, and peeks return accepted bytes at the read position |
| RingConcurrent.ReaderResults | common/usb_ringbuffer.h:333-394 | over every interleaving, a finishing peek shows the next accepted bytes and leaves index and read position alone, a read takes them, a drop skips them |
| RingConcurrent.WriterResults | common/usb_ringbuffer.h:258-281 | over every interleaving, publishing adds exactly the copied bytes to the accepted ones and moves the write index by them |
| RingConcurrent.PeeksLeaveRing | common/usb_ringbuffer.h:333-353 | between two points of a run between which the reader only peeks, index and read position are equal |
| RingConcurrent.ReadAfterPeek | common/usb_ringbuffer.h:333-371 | over every interleaving, a read returns what the peeks since the last consumption showed |
| RingConcurrent.ReadsArePrefix | common/usb_ringbuffer.h:209-211 | over every interleaving without drops, what was read is a prefix of what was accepted |
| RingConcurrent.NoUnreadOverwritten | common/usb_ringbuffer.h:145-147 | over every interleaving, the slot the writer is about to fill holds no unread byte |
| RingConcurrent.NoSlotOutside | common/usb_ringbuffer.h:258-281 | over every interleaving, no copy leaves the pool or the input |
| RingConcurrent.NothingLost | common/usb_ringbuffer.h:145-147 | with both threads idle, the accepted bytes are the consumed ones followed by the sequential ring's contents |
| RingConcurrent.LoadSizes | common/usb_ringbuffer.h:104-116 | over every interleaving, the size a thread computes is what is free, or unread, when it loads the other's index |
| RingConcurrent.ResetReadIsDrop | common/usb_ringbuffer.h:69-80 | discarding everything in the reader's thread is a drop of a whole ring: whatever the writer does in between, the index stored is the one loaded |
| Mempool.UsbMempool.Create | common/usb_mempool.h:37-74 | succeeds iff there are 1, 2, 4, 8 or 16 blocks of a multiple of 4 bytes and a semaphore; every block is then free, in order |
| Mempool.UsbMempool.Alloc | common/usb_mempool.h:83-94 | takes the oldest free block, or returns null when there is none |
| Mempool.UsbMempool.Free | common/usb_mempool.h:96-102 | queues the block as free and returns 4, or 0 when the ring is full |
| Mempool.UsbMempool.Send | common/usb_mempool.h:104-111 | queues the block unless the ring is full; the result is the semaphore's alone |
| Mempool.UsbMempool.Recv | common/usb_mempool.h:113-129 | takes the oldest sent block when the semaphore and the ring allow it |
| Mempool.UsbMempool.Reset | common/usb_mempool.h:131-142 | every block is free again and none is sent; the semaphore stays |
| Mempool.StepMeanings | common/usb_mempool.h:83-142 | queues are served oldest first, a receive takes the semaphore whether or not it finds a block, a send's answer is the semaphore's; nothing else changes |
| Mempool.BlocksAre | common/usb_mempool.h:37-74 | block i lies i block sizes behind the first |
| Mempool.CountTest | common/usb_mempool.h:37-74 | among counts up to 16, the ring accepts 4 times the count iff it is 1, 2, 4, 8 or 16 |
| Mempool.BlocksConserved | common/usb_mempool.h:37-142 | over every run of clients that free and send what they hold, resets included: free, sent and held blocks together are the pool's blocks, and sent blocks <= semaphore <= block count |
| Mempool.NoDuplicates | common/usb_mempool.h:37-142 | over every such run, no address is in two places or twice in one iff the blocks have a nonzero size or there is at most one |
| Mempool.ResetConservesExactly | common/usb_mempool.h:131-142 | a reset keeps the blocks conserved iff no client holds one |
| Mempool.NeverTruncated | common/usb_mempool.h:96-111 | over every such run, no free or send of a held block is cut short |
| Mempool.RecvOldest | common/usb_mempool.h:113-129 | over every such run, a receive without waiting succeeds iff a block is queued and takes the oldest |
| Mempool.SemExactStep | common/usb_mempool.h:104-142 | from an exact count, an event of disciplined clients keeps the semaphore equal to the number of queued blocks iff it is not a reset that finds one queued |
| Mempool.SemExactExactly | common/usb_mempool.h:104-142 | over every run, the semaphore is the number of queued blocks throughout iff no reset finds a block queued, and then every send reports success |
| Mempool.SendAnswer | common/usb_mempool.h:104-111 | over every run, a send of a held block queues it, and reports success iff the semaphore is below its maximum, iff resets left over fewer counts than there are blocks not queued |
| Mempool.SendReportsFailure | common/usb_mempool.h:131-142 | a run with a reset after which a send queues its block and reports a failure |
| MempoolConcurrent.StepInv | common/usb_mempool.h:83-129 | every load, byte copy, store, give and take of any party keeps the invariant of both rings, the blocks and the semaphore |
| MempoolConcurrent.BlocksConserved | common/usb_mempool.h:83-129 | over every interleaving, each block is in exactly one place (a ring, a write under way, a client), and the semaphore with a give to come and a take under way counts the sent blocks |
| MempoolConcurrent.WritesAreWhole | common/usb_mempool.h:96-111 | over every interleaving, the write of a held block finds room for all four bytes, and what is published is the block |
| MempoolConcurrent.ReceivesOldest | common/usb_mempool.h:113-129 | over every interleaving, a receive that took the semaphore returns the oldest block not yet received |
| MempoolConcurrent.AllocationLooks | common/usb_mempool.h:83-94 | over every interleaving, an allocation looks for a block iff the free ring is not empty when it loads the write index |
| MempoolConcurrent.AllocatesOldest | common/usb_mempool.h:83-94 | over every interleaving, such an allocation returns the oldest free block, any other none |
| MempoolConcurrent.SendsSucceed | common/usb_mempool.h:104-111 | over every interleaving without resets, a send's give finds the semaphore below its maximum |
| MempoolConcurrent.ReceiveWaits | common/usb_mempool.h:113-121 | over every interleaving, a receive can take the semaphore iff an unclaimed block is queued; otherwise it waits |
| Memcpy.UsbMemcpy | common/usb_memcpy.h:22-90 | for every length and pair of alignments of disjoint regions, the destination becomes the bytes of the source and the rest of its memory is unchanged |
| Memcpy.PatchedAt | common/usb_memcpy.h:22-90 | byte by byte: the copied positions hold the source's bytes, every other its own |
| Memcpy.MoveWord | common/usb_memcpy.h:14-20 | a word moved by an aligned store or byte by byte puts the same four bytes in place; both word accesses are 4-aligned |
| Descriptors.EncodeConfig | common/usb_def.h:641-649 | a 9-byte descriptor of configuration type that carries its total length and value |
| Descriptors.EncodedBytes | common/usb_def.h:641-690 | every byte of the three descriptors: 09 02, 09 04 and 07 05, and each field at its offset |
| Descriptors.WBRoundTrip | common/usb_util.h:208 | the two bytes of a 16-bit value read back as the value |
| Descriptors.PacketFields | common/usb_def.h:246-254 | the two masks extract bits 0 to 10 and bits 11 and 12 |
| Descriptors.MaxPacketSizeFields | common/usb_def.h:684-690 | packet size and multiplier an endpoint was declared with come back from its encoded bytes |
| ConfigParser.Hubport.ParseConfigDescriptor | core/usbh_core.c:180-303 | on any bytes with the sentinel, whatever lies behind the buffer: bad header refused, short ones ignored, otherwise table, saved header and result are those of `ParseFrom` |
| ConfigParser.Hubport.Dispatch | core/usbh_core.c:226-290 | one descriptor's effect on table and cursor, with every error case; no write outside the table |
| ConfigParser.InterfaceEffect | core/usbh_core.c:228-268 | a type 4 descriptor is taken iff it has 9 bytes, number < 8, setting < 2 and at most 4 endpoints; it fills just its slot; the codes otherwise |
| ConfigParser.EndpointEffect | core/usbh_core.c:270-284 | a type 5 descriptor is taken iff it has 7 bytes and is at most the fourth of a setting; it fills just the next endpoint slot; the codes otherwise |
| ConfigParser.OtherEffect | core/usbh_core.c:286-287 | a descriptor of any other type changes nothing |
| ConfigParser.FailureAt | core/usbh_core.c:226-301 | where accepted descriptors lead to a zero length, a refused descriptor or one that reaches past the end, the parse fails with which code and table |
| ConfigParser.ParseIffTiled | core/usbh_core.c:226-300 | on any bytes, the parse succeeds with a table iff descriptors tile the rest of the configuration exactly, each acceptable after those before, and the table is the fold over them |
| ConfigParser.ParseSound | core/usbh_core.c:226-300 | a successful parse yields the tiling and its fold |
| ConfigParser.ParseComplete | core/usbh_core.c:226-300 | any tiling of acceptable descriptors is parsed, with the fold as its table |
| ConfigParser.EndpointNeedsInterface | core/usbh_core.c:184-187 | in every accepted parse, an interface descriptor precedes every endpoint descriptor |
| ConfigParser.EndpointFirstRefused | core/usbh_core.c:184-187 | an endpoint that only descriptors of other types precede ends the parse with an error and an empty table |
| ConfigParser.AcceptedReadsInside | core/usbh_core.c:226-292 | in an accepted parse every interface and endpoint header is read inside the configuration |
| ConfigParser.ReadsBeyondExactly | core/usbh_core.c:267 | a configuration of a given length can make the parser read behind a buffer iff fewer than seven bytes of room are left behind it; it refuses every such configuration |
| ConfigParser.TouchedSuffices | core/usbh_core.c:226-292 | a descriptor's effect depends on no byte but those counted as read |
| ConfigParser.UnreadIrrelevant | core/usbh_core.c:226-300 | a parse that reads nothing behind the buffer ends the same way, errors included, whatever lies there |
| ConfigParser.BeyondIrrelevant | core/usbh_core.c:226-300 | the memory behind the buffer never decides success, nor the table of a success |
| ConfigParser.ReadsBeyondExample | core/usbh_core.c:467-486 | a configuration of 511 bytes in the buffer of 512 for which the parser reads behind it |
| ConfigParser.RoundTrip | common/usb_def.h:641-690 | every configuration that fits the host's tables, with class descriptors anywhere, parses with success and each interface and endpoint is in its [interface][setting][endpoint] slot |
| ConfigWalker.UsbdEndpoints.SetEndpoint | core/usbd_core.c:125-141 | records packet size and multiplier for the endpoint's number and direction, and opens it |
| ConfigWalker.UsbdEndpoints.SetConfiguration | core/usbd_core.c:334-390 | on the descriptors its memory holds, tables, port calls and result are those of `WalkAll`, and it reads only inside its buffer |
| ConfigWalker.UsbdEndpoints.SetInterface | core/usbd_core.c:401-466 | the same for the interface walk, with the interface descriptor the class is notified of |
| ConfigWalker.WalkEncoded | core/usbd_core.c:334-466 | on every encoded configuration: exactly the selected endpoints are opened or closed, in order (all of an interface closed for setting 0); the result is the last call's; another configuration value does nothing and fails; the length ends the walk iff the value matches |
| ConfigWalker.ConfigurationWalk | core/usbd_core.c:334-390 | on every encoded configuration, SET_CONFIGURATION opens the endpoints of the requested setting of every interface, in order, and nothing else |
| ConfigWalker.InterfaceWalk | core/usbd_core.c:401-466 | on every encoded configuration, SET_INTERFACE closes every endpoint of the interface for setting 0, and opens exactly those of the setting otherwise, in order |
| ConfigWalker.WalkResult | core/usbd_core.c:375-466 | the result is the answer to the last call; without calls, only SET_CONFIGURATION of the configuration's value succeeds |
| ConfigWalker.InterfaceNotified | core/usbd_core.c:425-432 | the class is notified of the descriptor of the requested setting, or of none |
| ConfigWalker.NoInterfaceNoCall | core/usbd_core.c:336-342 | endpoints ahead of the first interface are neither opened nor closed for settings below 255 |
| ConfigWalker.FailureHiddenExactly | core/usbd_core.c:368-375 | success means success of every call, for every driver, iff the configuration makes the walk call at most once |
| ConfigWalker.FailureHiddenExample | core/usbd_core.c:368-375 | a configuration whose first endpoint fails to open and whose second opens is reported as a success |
| ConfigWalker.EncodedLaidOut | core/usbd_core.c:350-386 | the encoded bytes are enough for a walk that selects them; only one that does not needs a zero terminator |
| ConfigWalker.TablesMeaning | core/usbd_core.c:125-141 | after any calls, each table entry is that of the last descriptor opened for its address, or unchanged |
| ConfigWalker.MsgMeaning | core/usbd_core.c:125-141 | a table entry holds bits 0 to 10 of the descriptor's bytes 4 and 5 as packet size, bits 11 and 12 as multiplier |
| ConfigWalker.WalkRecords | core/usbd_core.c:125-141 | after a walk that opens an endpoint, and no later one of its address, the tables hold the size and multiplier it was declared with, for its number and direction |
| LiteralConfiguration.ExampleEncodes | common/usb_def.h:641-690 | a whole configuration, byte by byte |
| LiteralConfiguration.ExampleParsed | core/usbh_core.c:180-303 | the host's table for these bytes, slot by slot |
| LiteralConfiguration.ExampleConfigured | core/usbd_core.c:334-390 | SET_CONFIGURATION on these bytes: one open, and the table entry |
| LiteralConfiguration.ExampleSettingOne | core/usbd_core.c:401-466 | SET_INTERFACE(0, 1) on these bytes: one open, and the table entry |
| LiteralConfiguration.ExampleSettingZero | core/usbd_core.c:401-466 | SET_INTERFACE(0, 0) on these bytes: two closes |
| DeviceAddress.DevAddrMap.AllocateDevaddr | core/usbh_core.c:43-67 | the loop over the bitmap computes `Allocate`, within 126 probes |
| DeviceAddress.DevAddrMap.FreeDevaddr | core/usbh_core.c:69-87 | unmarks the address unless it is 0 or 127; fails iff it was not marked |
| DeviceAddress.TestBit | core/usbh_core.c:59-60 | the masked test looks at exactly one bit, on words as bits and as numbers |
| DeviceAddress.AllocateMeaning | core/usbh_core.c:43-67 | the first free address after the last one, cyclically in 2..127; fails iff every address there but the last one is taken |
| DeviceAddress.AllocateInOrder | core/usbh_core.c:635-646 | from bus initialisation 126 allocations yield 2 to 127 in order and the next fails |
| HubportLifeCycle.UsbhBus.EnumeratePort | core/usbh_core.c:334-613 | bus and result are those of `Enumerate`, for a failure at any transfer |
| HubportLifeCycle.UsbhBus.ReleasePort | core/usbh_core.c:615-633 | bus is that of `Release` |
| HubportLifeCycle.EventEffects | core/usbh_core.c:334-633 | what connect, enumerate and release do to their port and the allocator; an enumeration returns the code of its first failing transfer, 0 when no address is left, and otherwise what followed |
| HubportLifeCycle.StepInv | core/usbh_core.c:334-633 | connect, enumerate and release keep addresses unique and marked |
| HubportLifeCycle.NoSharedAddress | core/usbh_core.c:395-419 | over every sequence of connects, enumerations failing anywhere and releases, no two connected ports share a nonzero address, and each is marked |
| HubportLifeCycle.LeakExactly | core/usbh_core.c:69-95 | an event keeps the table equal to the addresses in use iff it is orderly: the exact cases in which an address leaks |
| HubportLifeCycle.TableIsExact | core/usbh_core.c:395-419 | from an exact table, as at power-up, the table marks exactly the addresses in use at the end of a run iff the run is orderly |
| HubportLifeCycle.LeakedForGood | core/usbh_core.c:69-95 | over every run, an address that is marked though no connected port holds it stays so |
| HubportLifeCycle.EnumerateResult | core/usbh_core.c:395-400 | an enumeration returns a success without an address iff the device was read and no address was left; a new address was free before and is marked after; other ports keep theirs |
| OtgRoleChange.UsbotgCore.RoleChangePass | core/usbotg_core.c:61-76 | a pass serves the requested mode |
| OtgRoleChange.UsbotgCore.TriggerRoleChange | core/usbotg_core.c:131-140 | a trigger is the store and the give, in that order |
| OtgRoleChange.PassIsSteps | core/usbotg_core.c:27-76 | the routines are the thread's single steps when nothing interleaves |
| OtgRoleChange.StepInv | core/usbotg_core.c:27-140 | every store, give and thread step keeps the invariant |
| OtgRoleChange.NeverBothRoles | core/usbotg_core.c:27-59 | over every interleaving, host and device are never both marked initialised and never both running |
| OtgRoleChange.StacksBracketed | core/usbotg_core.c:27-59 | over every interleaving, a running stack is marked, a stack is started only when neither runs, and the one being stopped runs |
| OtgRoleChange.SettlesOnLastMode | core/usbotg_core.c:61-140 | once no trigger is in flight, the semaphore is empty and the thread waits, the running role is the last mode stored |
| OtgRoleChange.RoleReached | core/usbotg_core.c:61-76 | from any reachable state with no trigger in flight, the thread alone brings up the last stored role within 8 * sem + 7 steps |
| StringDescriptor.GetStringDescriptor | core/usbd_core.c:247-263 | for every string: refused without a write when its 16-bit total size exceeds the buffer, otherwise that size is returned and just its encoding is written, from the buffer on |
| StringDescriptor.EncodedBytes | core/usbd_core.c:254-260 | the length byte, type 3, and each character low byte first |
| StringDescriptor.EncoderOverrunsExactly | core/usbd_core.c:247-263 | the accepted lengths in 16 bits, and that an accepted string stays in the buffer iff its length is at most 255 |
| StringDescriptor.EncoderOverrunExample | core/usbd_core.c:247-263 | a string of 32767 characters is accepted with size 0 |
| StringDescriptor.GetStringDesc | core/usbh_core.c:736-773 | refuses exactly when the characters it checks for exceed the output length, otherwise writes those of the descriptor from the output on, at most one more than it holds, and nothing else |
| StringDescriptor.DecoderRefusesExactly | core/usbh_core.c:760-762 | refused iff the length byte is at least twice the output length plus 4 |
| StringDescriptor.DecoderOverrunsExactly | core/usbh_core.c:760-770 | an accepted descriptor is written inside the output iff its length byte is not odd with exactly one character too many |
| StringDescriptor.DecoderOverrunExample | core/usbh_core.c:760-770 | length byte 27 with room for 12 characters is accepted and 13 are written |
| StringDescriptor.RoundTrip | core/usbh_core.c:758-772 | a string that fits the device's buffer comes back from a read of 255 bytes iff it has at most 126 characters |
| Lists.InsertAfter | common/usb_list.h:253-260 | the node is second in the circle, both links right |
| Lists.InsertBefore | common/usb_list.h:268-275 | the node is last in the circle |
| Lists.Remove | common/usb_list.h:281-287 | the node leaves the circle and is a circle of its own |
| Lists.MoveHead | common/usb_list.h:293-297 | the node moves behind the head, a permutation |
| Lists.MoveTail | common/usb_list.h:303-307 | the node moves to the end, a permutation |
| Lists.DlistLen | common/usb_list.h:322-333 | the traversal ends with the number of nodes but the head |
| Lists.DlistIsEmpty | common/usb_list.h:313-316 | true iff the head is alone |
| Lists.RingRotates | common/usb_list.h:253-333 | the same circle read from any of its nodes |
| Lists.AddHead | common/usb_list.h:41-45 | the node follows the head |
| Lists.AddTail | common/usb_list.h:47-58 | the node ends the chain |
| Lists.Insert | common/usb_list.h:60-75 | the node stands ahead of the given one, or nothing changes when that is not behind the head; the loop ends; a null position is dereferenced |
| Lists.SlistRemove | common/usb_list.h:77-91 | the node leaves the chain, or nothing changes when it is not there |
| Lists.SlistLen | common/usb_list.h:93-104 | the number of nodes behind the head |
| Lists.Contains | common/usb_list.h:106-117 | 0 iff the node is behind the head |
| Lists.Tail | common/usb_list.h:124-131 | the last node |
| EndToEnd.Arrives | core/usbd_core.c:1057-1148 | over every run, the host receives the first wLength bytes of a descriptor the device offers |
| EndToEnd.ConfigurationArrives | core/usbh_core.c:478-486 | a configuration sent in any split parses on the host, in any buffer with room for the sentinel, into tables that hold every setting and endpoint of it |
| EndToEnd.HeaderArrives | core/usbh_core.c:440-476 | the host's first 9 bytes carry the total length it then asks for |
| EndToEnd.StringArrives | core/usbh_core.c:736-773 | a string of at most 255 characters sent in any split decodes unchanged iff it has at most 126 |
| EndToEnd.TableListsOpens | core/usbd_core.c:334-390 | the endpoints a configuration's walk owes are a permutation of those the host's table lists for default settings, and the same sequence when these ascend |
| EndToEnd.HostAndDeviceAgree | core/usbd_core.c:334-390 | over every run that sends the configuration, the device's SET_CONFIGURATION walk opens just the endpoint descriptors of the table that the host's parse of the received bytes builds; in the table's order when default settings ascend |

## Left out

- Dispatch of standard, class and vendor requests: the request handler is an arbitrary `Reply`, chosen anew at each call.
- The control-endpoint thread and the no-copy variant of IN replies: alternative configurations of the same engine.
- Test mode, suspend, remote wakeup and disconnect events.
- Port drivers, DMA, caches and packetisation: the controller appears only through its completions.
- Operating-system services: a semaphore is a count that saturates at its maximum; waiting, time-outs and allocation failures other than the semaphore's are not modelled.
- `usbotg_deinitialize`, which clears both flags from another context and deletes the role thread: the OTG runs end before it.
- Weak memory: the concurrent models are sequentially consistent.
- RingConcurrent: does not have the linear setup and done operations, whose copies the client makes, nor the full reset and overwrite, which write the other thread's index; the reader's reset is a drop (`ResetReadIsDrop`).
- The hub driver: a connect zeroes the port; finding and listing hub ports are not modelled.
- HubportLifeCycle.UsbhBus.EnumeratePort: what follows SET_ADDRESS is one return code, since it changes no address; a transfer's retries are inside its return code.
- Device descriptor parsing, class-driver matching, and the Microsoft, WebUSB and BOS descriptors.
- ConfigParser.RoundTrip: descriptors in the tables are raw bytes; the C structures that overlay them are not modelled.
- ConfigWalker.UsbdEndpoints.SetInterface: the class notification itself is only its argument.
- EndToEnd.HostAndDeviceAgree: concerns configurations in which bNumEndpoints counts the endpoint descriptors, since a reader of the table has no other count; the parser itself does not compare them.
- HubportLifeCycle.UsbhBus.ReleasePort: the class disconnects, the killed transfer, the cleared interface count and the events of a release are left out; they touch no address.
- Lists: head, next and isempty of the single list are plain reads.
- Mempool.UsbMempool.Recv: waiting; alone, a receive that waits on an empty semaphore can only time out. `MempoolConcurrent` has receives that wait.
- MempoolConcurrent: a reset, which writes the indices of both sides of both rings; time-outs of a waiting receive, which change nothing.
- The class drivers, the demos and the printing of descriptors.
