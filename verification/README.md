# veo-udma: a Dafny model of user-DMA transfers between a VE and its host

veo-udma moves buffers between a host process (VH) and a program offloaded
to an SX-Aurora Vector Engine (VE) without going through VEO's slow memory
transfer calls. For every peer, the host allocates a SysV shared segment of
two halves, the send and the receive sub-channel. Each half is a data area
followed by an array of mailbox words. The VE attaches the segment and
registers it for DMA. It then moves data between the segment and a
DMA-registered mirror buffer of its own. A transfer is cut into chunks that
go round robin through `split` slots of `split_size` bytes. The mailbox word
of a slot carries the length of the chunk in it: the producer stores the
length, and the consumer clears the word once it has taken the bytes.

The model covers:

- `libveo_udma.c`, the host library:
  - the registry of processes and peers (`veo_udma_peer_init`,
    `veo_udma_peer_fini`);
  - the sub-channel layout;
  - the split selection (`calc_split_send`, `calc_split_recv`) with its two
    tuning tables;
  - the chunk loops of `veo_udma_send` and `veo_udma_recv`.
- `libveo_udma_ve.c`, the VE library:
  - `ve_udma_init`, which mirrors the host's layout into VEHVA space and
    carves the mirror buffer;
  - `ve_udma_fini`;
  - the pipelined send and receive loops;
  - `ve_udma_send_packed`.
- `libvehello.c`, the two-buffer prototype of the VE library: its init with
  the mirror and layout loops, `ve_udma_recv1`, `ve_udma_send` and
  `ve_udma_recv`.

Code that moves data step by step is imperative Dafny:
- methods over arrays for the mailbox words, the data areas, the mirror and
  the destination;
- classes for the registry (`HostRegistry.Registry`) and for the VE globals
  (`VeUdma.VeLibrary`, `VeHello.ProtoLibrary`).

Each method is proved against a specification function of the old state:
`InitFixed`, `Fini`, `InitSpec`, `ProtoInitSpec`, `Plan`, `Chunks`,
`Filled` and so on. The ring invariant of the pipelines (`Ring.RingInv`) is
kept by every iteration and states in which order chunks are posted and
completed. The invariants `SendInv` and `RecvInv` add the bytes each slot
holds.

The other side of a transfer, the DMA engine, the clock and the offload call
are the environment, modelled as finite schedules of answers (`Oracle`).
These answers are:
- the peer's stores into mailbox words;
- the results of `ve_dma_post` and `ve_dma_poll`;
- the results of the timeout test;
- the results of `veo_call_peek_result`.

When a schedule runs out, the transfer ends with `NoAnswer`/`Hung` where the
C loop would spin on. The results of other foreign calls are parameters:
`shmget`, `shmat`, `vh_shmat`, `malloc`, `posix_memalign`,
`ve_register_mem_to_dmaatb`, `ve_dma_init`, `getpid` and the VE-side setup
call.

Notes on the model:
- The VE's `len - lenp` counts the bytes whose DMA was posted, not those
  completed. After a poll error or a timeout, the count includes chunks
  that never reached the other side; the contracts state this (`count ==
  Sum(lens)` with `done <= |lens|`).
- The split selection is sometimes described as never decreasing the
  number of slots or the chunk size as the transfer grows. That holds for
  the send table (`SplitTune.SendTuneMonotone`) but not for the measured
  receive table (`SplitTune.RecvTuneNotMonotone`). The model follows the
  code's tables.
- In the VE library, a `len` of 2^63 or more turns `lenp` (an `int64_t`)
  negative. The loop then does not run and the call returns 0.

## Model

| member | source | states |
|---|---|---|
| UdmaConst.Min | veo_udma.h:12 | MIN(a, b) is one of its arguments and at most both |
| UdmaConst.Align8 | libveo_udma_ve.c:284 | the aligned entry length is a multiple of 8, not smaller and less than 8 larger |
| ChannelLayout.HostLayout | libveo_udma.c:165-182 | both data areas are UDMA_BUFF_LEN - (UDMA_MAX_SPLIT*8 + 16) long, each mailbox array follows its data area, all four regions lie inside the 2*UDMA_BUFF_LEN segment and are pairwise disjoint |
| ChannelLayout.Translate | libveo_udma_ve.c:123-126 | a host address becomes shm_vehva plus its offset from the segment base, modulo 2^64 |
| ChannelLayout.MirroredLayout | libveo_udma_ve.c:123-128 | for the host's layout, the VE's send side addresses the host's receive sub-channel and vice versa, at the same offsets, with crossed buffer lengths and disjoint regions |
| ChannelLayout.MirrorSizes | libveo_udma_ve.c:139-141 | the mirror size 2*UDMA_BUFF_LEN rounded up to 64 MiB stays 128 MiB; the prototype's 4 MiB rounds up to 64 MiB |
| ChannelLayout.MirrorBuffers | libveo_udma_ve.c:157-164 | the send mirror is at the base and the receive mirror UDMA_BUFF_LEN later in both address spaces, disjoint, inside the allocation, other fields unchanged |
| SplitTune.OverrideAsWritten | libveo_udma.c:248-261 | the environment override as written: any non-zero split is taken with its size (0 when unset) when split*size in size_t is at most UDMA_BUFF_LEN - UDMA_MAX_SPLIT*8 |
| SplitTune.OverrideChecked | libveo_udma.c:248-261 | the override taken only when it is feasible (1..UDMA_MAX_SPLIT slots, non-empty chunks, inside the data area); it accepts only what the written test accepts |
| SplitTune.TuneIndex | libveo_udma.c:263-268 | the scan selects a row of the table |
| SplitTune.ScanStops | libveo_udma.c:263-268 | the scan stops at the last row from row 1 on whose transfer size len reaches, and the next row is out of reach |
| SplitTune.TuneIndexLargest | libveo_udma.c:263-268 | on an ascending table the selected row is the last one len reaches, row 0 when none |
| SplitTune.TuneIndexMonotone | libveo_udma.c:263-268 | a longer transfer never selects an earlier row |
| SplitTune.TablesTunable | libveo_udma.c:223-242 | both tables are ascending and every row is feasible |
| SplitTune.Chosen | libveo_udma.c:244-300 | the split decision (checked override, else the selected row) is always feasible |
| SplitTune.CalcSplit | libveo_udma.c:244-271 | calc_split_send/recv with the checked override: an accepted override wins, otherwise the row the scan loop selects |
| SplitTune.SendTuneMonotone | libveo_udma.c:224-232 | in the send table a longer transfer gets at least as many slots and chunks at least as large |
| SplitTune.RecvTuneNotMonotone | libveo_udma.c:234-242 | in the receive table 8 MiB gets 16 slots but 16 MiB only 4, and 32 MiB gets 1 MiB chunks but 64 MiB only 64 KiB |
| SplitTune.SmallTransfersUseRowZero | libveo_udma.c:263-270 | below the transfer size of row 1 both tables use row 0 |
| SplitTune.LooseBoundAccepted | libveo_udma.c:255 | the written bound accepts one slot of UDMA_BUFF_LEN - 512 bytes, 16 bytes longer than the data area |
| SplitTune.UnsetSizeAccepted | libveo_udma.c:249-260 | with only the split variable set, size 0 is accepted and no chunk carries a byte |
| SplitTune.UnboundedSplitAccepted | libveo_udma.c:254-260 | a split of 65 (more than the mailbox words) or of -1 is accepted as written and rejected when checked |
| Ring.CoveredStep | libveo_udma_ve.c:221 | while bytes remain, the next chunk is MIN(split_size, lenp), non-empty and at most split_size |
| Ring.ChunkStart | libveo_udma.c:341-344 | chunk k starts at byte k*size of the transfer and ends inside it |
| Ring.Plan | libveo_udma.c:339-346 | the lengths of the first n chunks, chunk k being ChunkLen(len, size, k) |
| Ring.SumPlan | libveo_udma.c:339-346 | the first n chunks together cover MIN(len, n*size) bytes |
| Ring.ZeroSizeNoProgress | libveo_udma.c:340 | with split_size 0 no chunk carries a byte |
| Ring.ChunkBytes | libveo_udma.c:341 | chunk k of the source has the length of the plan's chunk k |
| Ring.ChunksAt | libveo_udma_ve.c:222 | entry k of the chunks of a transfer is chunk k |
| Ring.ModNext | libveo_udma_ve.c:242 | the cursor step (j + 1) % split is the next slot of the ring |
| Ring.CursorStep | libveo_udma.c:346 | a cursor that tracks n % split tracks n + 1 after the step |
| Ring.RingInit | libveo_udma_ve.c:197-204 | a zeroed tlenr with j = 0 and jr = -1 is an empty ring |
| Ring.RingFacts | libveo_udma_ve.c:205-206 | slot j is free exactly when fewer than split chunks are in flight; the consumer has work exactly when a chunk is in flight |
| Ring.RingPost | libveo_udma_ve.c:236-242 | posting into the free slot j grows the ring at the producer end, advances j and sets jr on the first post |
| Ring.RingComplete | libveo_udma_ve.c:248-253 | the slot jr holds the oldest chunk; clearing it and advancing jr keeps the ring, so chunks complete in posting order |
| Ring.CarriesPost | libveo_udma_ve.c:371-372 | recording the destination of a new chunk in its slot keeps every slot's record |
| Ring.CarriesComplete | libveo_udma_ve.c:390-397 | completing the oldest chunk keeps the records of the others |
| Memory.Overwrite | libveo_udma_ve.c:222 | a memcpy changes exactly the bytes it covers, to the copied ones |
| Memory.Copy | libveo_udma.c:341 | memcpy into an array: its new contents are the old ones overwritten at the offset |
| Memory.Apply | libveo_udma.c:339-346 | a sequence of copies applied in order keeps the buffer's length |
| Memory.ApplyOutside | libveo_udma.c:339-346 | bytes no copy covers keep their value |
| Memory.OverwriteExtend | libveo_udma.c:414-416 | copying the next tlen payload bytes after the first pos ones extends the received prefix to pos + tlen |
| Slots.OffsetFits | libveo_udma_ve.c:189-190 | with split*size bytes, every slot j < split fits the area |
| Slots.OffsetsApart | libveo_udma_ve.c:189-190 | different slots do not overlap |
| Slots.HoldsPost | libveo_udma_ve.c:222-236 | staging a chunk in a free slot keeps the bytes of every other slot in flight |
| Oracle.AwaitMailbox | libveo_udma_ve.c:209-218 | the VE's wait on a mailbox word ends with the word empty (send) or set (receive), with a timeout only when the loop has one, or stalls; no other word changes |
| Oracle.AwaitHost | libveo_udma.c:348-356 | the host's wait ends with the word ready, or gives up when the offload call finished with a result other than len, or stalls |
| HostRegistry.VhShmInit | libveo_udma.c:28-47 | success exactly when shmat succeeded; otherwise minus the errno, with a stale address after shmget failed and (void *)-1 after shmat failed |
| HostRegistry.VhShmFini | libveo_udma.c:49-69 | 0 exactly when every detach and remove it attempted succeeded, -1 otherwise |
| HostRegistry.ShmFailureMissed | libveo_udma.c:166-170 | the written test segid == -1 catches only an EPERM failure; segid < 0 catches every failure and nothing else |
| HostRegistry.SearchAsWritten | libveo_udma.c:136-141 | the first matching slot, or the first NULL slot whose dereference ends the search, or no match, with every earlier slot live and different |
| HostRegistry.SearchSkipping | libveo_udma.c:316-321 | the first slot holding the key, or none holds it |
| HostRegistry.SearchesAgree | libveo_udma.c:380-384 | where the written search meets no NULL slot, both searches give the same answer |
| HostRegistry.ScanAsWritten | libveo_udma.c:136-141 | the written loop computes SearchAsWritten |
| HostRegistry.Scan | libveo_udma.c:316-321 | the loop stepping over NULL slots computes SearchSkipping |
| HostRegistry.RefCountUpdate | libveo_udma.c:204 | replacing a peer slot changes a process's count by what the slot contributes |
| HostRegistry.RefCountNone | libveo_udma.c:205-208 | an entry no peer refers to has count 0 |
| HostRegistry.RefCountPositive | libveo_udma.c:153 | a peer that refers to an entry contributes to its count |
| HostRegistry.EmptyTables | libveo_udma.c:19-22 | the zero-initialised globals are well formed |
| HostRegistry.InitAsWritten | libveo_udma.c:127-187 | peer_init as written; a success registers the peer at the old udma_num_peers with its context |
| HostRegistry.InitFixed | libveo_udma.c:127-187 | peer_init with the error paths undone: it succeeds exactly when an entry for the process exists or can be added, the peer table has room, both mallocs succeed, the segment is attached and the VE setup answers 0; a failure leaves the tables as they were and returns a negative code or the setup's code; a success returns the old udma_num_peers, appends exactly that peer, keeps the earlier slots, and reuses the process's entry found by the NULL-skipping search (its count raised by one, its other fields kept) or appends ProcEntry(ve_node_id, 1, proc, lib_handle) at udma_num_procs when there is none |
| HostRegistry.InitFixedWellFormed | libveo_udma.c:142-165 | init keeps the registry well formed: counters bound the live slots, every peer has a live process and an attached segment with its layout, every count equals the peers using the entry |
| HostRegistry.Fini | libveo_udma.c:189-212 | it crashes exactly when the peer slot is NULL or out of range or its process entry is missing; otherwise it returns the close call's code when nonzero, else vh_shm_fini's; any failure changes nothing; success needs a registered peer with a live process entry, decrements that entry's count, frees and NULLs it at 0, leaves every other process entry alone, NULLs the peer slot and keeps both counters; a NULL peer or process entry crashes before the close call |
| HostRegistry.FiniWellFormed | libveo_udma.c:189-212 | on a well-formed registry fini of a registered peer never crashes and keeps the registry well formed |
| HostRegistry.InitFiniRoundTrip | libveo_udma.c:127-212 | init followed by fini of the new peer gives back both tables; only the counters moved on |
| HostRegistry.CountLeakAsWritten | libveo_udma.c:153-159 | a failed peer malloc leaves a count of 1 with no peer behind it, which no fini can release |
| HostRegistry.NullProcAsWritten | libveo_udma.c:142-149 | a failed process malloc leaves udma_num_procs raised over a NULL slot that the next init dereferences |
| HostRegistry.MissedShmFailureAsWritten | libveo_udma.c:166-170 | an attach failing with ENOMEM is reported as success, with no segment behind the peer |
| HostRegistry.ProcTableOverflowAsWritten | libveo_udma.c:142-151 | a ninth process writes past udma_procs; the fixed init refuses it with -ENOMEM |
| HostRegistry.NullSlotsAfterFini | libveo_udma.c:204-210 | after fini of the only peer, both written searches dereference a NULL slot |
| HostRegistry.Registry.PeerInitAsWritten | libveo_udma.c:127-187 | the method computes InitAsWritten on the tables it holds |
| HostRegistry.Registry.PeerInit | libveo_udma.c:127-187 | the method computes InitFixed on the tables it holds |
| HostRegistry.Registry.PeerFini | libveo_udma.c:189-212 | the method computes Fini on the tables it holds |
| HostTransfer.SlotWrite | libveo_udma.c:341 | chunk k is copied to slot k mod split, inside the data area |
| HostTransfer.SlotWrites | libveo_udma.c:339-346 | the copies of the first n chunks, in order, all inside the data area |
| HostTransfer.Send | libveo_udma.c:307-366 | no peer gives NoPeer, a held lock Busy; otherwise the chosen split's chunks are copied in plan order into their slots, completion means all len bytes went, a give-up returns a result other than len |
| HostTransfer.PushChunks | libveo_udma.c:338-362 | the area holds the plan's chunk copies applied in order; mailbox words past split are untouched |
| HostTransfer.PushChunk | libveo_udma.c:339-346 | one turn copies chunk n to slot i, stores its length in word i and advances i |
| HostTransfer.Recv | libveo_udma.c:371-426 | like Send; every accepted length fits the slot and what is left, the destination holds the first Sum(lens) payload bytes, an oversized length ends the transfer |
| HostTransfer.PullChunks | libveo_udma.c:402-419 | the destination's prefix is the received payload, each length between 1 and split_size |
| HostTransfer.PullChunk | libveo_udma.c:412-418 | one turn copies the slot's tlen bytes to the running offset and clears the word |
| HostTransfer.RecvTurnAsWritten | libveo_udma.c:414-417 | a turn as written writes tlen bytes at the offset and subtracts tlen from the size_t remainder, modulo 2^64 |
| HostTransfer.RecvOverrunAsWritten | libveo_udma.c:403-418 | a length of 16 with 10 bytes left writes 6 bytes past the destination and leaves lenp = 2^64 - 6 |
| VeUdma.Register | libveo_udma_ve.c:57-93 | records key, size and segment id; 0 exactly when the attach succeeded, -EINVAL for a failed vh_shmget, -ENOMEM for a NULL address or a VEHVA of -1 |
| VeUdma.InitSpec | libveo_udma_ve.c:95-166 | malloc failure returns -ENOMEM and changes nothing; success exactly when the allocation, registration (when needed), DMA init, memalign and registration of the mirror succeed, leaving the mirrored peer with its mirror halves |
| VeUdma.FiniSpec | libveo_udma_ve.c:168-187 | crashes exactly when udma_peer is NULL; otherwise detaches and resets shm_vehva only when attached and vh_shmdt succeeds, and the peer stays |
| VeUdma.FiniAfterFailedRegister | libveo_udma_ve.c:111-118 | after an init whose registration failed, udma_peer is NULL and the next fini crashes |
| VeUdma.InitFiniInit | libveo_udma_ve.c:95-187 | after a clean fini, the next init registers the segment again and mirrors the new attachment |
| VeUdma.BadAttachSticks | libveo_udma_ve.c:83-91 | a VEHVA of -1 stays in shm_vehva; the next init skips registration, succeeds and mirrors every address from -1 |
| VeUdma.VeLibrary.RegisterShm | libveo_udma_ve.c:57-93 | the method computes Register on the globals |
| VeUdma.VeLibrary.Init | libveo_udma_ve.c:95-166 | the method computes InitSpec on the globals |
| VeUdma.VeLibrary.Fini | libveo_udma_ve.c:168-187 | the method crashes exactly when FiniSpec does, changing nothing then, and otherwise computes FiniSpec on the globals |
| VeUdma.PackWrites | libveo_udma_ve.c:283-295 | one copy per entry, all inside the packed size |
| VeUdma.PackWriteAt | libveo_udma_ve.c:292-294 | entry k is copied at the sum of the aligned lengths of the entries before it |
| VeUdma.PackedPrefix | libveo_udma_ve.c:285 | the packed size of a prefix is at most that of all entries |
| VeUdma.PackedEntry | libveo_udma_ve.c:283-295 | after packing, every entry sits intact at its packed offset |
| VeUdma.PostAndPoll | libveo_udma_ve.c:296-319 | the post and poll retry loops: success only after a post; failures are a post error, a poll error or a timeout |
| VeUdma.SendPacked | libveo_udma_ve.c:273-320 | -ENOMEM and no DMA exactly when the packed size exceeds buff_len; otherwise one DMA of the packed size carries the packed buffer to the host's area; the code returned matches the ending |
| VeUdma.SendInvPost | libveo_udma_ve.c:206-242 | posting the next chunk into the free slot keeps the send invariant |
| VeUdma.SendInvComplete | libveo_udma_ve.c:245-253 | the oldest slot holds exactly its chunk's bytes; completing it keeps the invariant with the chunk published |
| VeUdma.SendProduce | libveo_udma_ve.c:206-243 | once the wait for an empty word j ends, chunk n is in slot j of the mirror whatever the post answers; a successful post copies it into slot j of the host's area; EAGAIN leaves the host's area as it was; another post error clears word j; a timeout leaves the mirror alone; no other mailbox word changes |
| VeUdma.SendConsume | libveo_udma_ve.c:245-267 | a completed poll stores the slot's length into its word; EAGAIN is followed by the timeout test in the library only |
| VeUdma.Send | libveo_udma_ve.c:193-270 | chunks are posted in plan order, the returned count is the bytes posted, every completed chunk was published with its own source bytes, Done exactly when all were posted and completed |
| VeUdma.SendRound | libveo_udma_ve.c:205-268 | one iteration keeps the send invariant, completes at most one chunk, publishing it with the bytes of its slot in the host's area and its length in that slot's mailbox word, and consumes an answer of the environment or ends the transfer |
| VeUdma.SendPostStep | libveo_udma_ve.c:206-243 | a chunk that moved joins the ring, staged in its slot of the host's area; nothing completes; otherwise the state is unchanged |
| VeUdma.SendCompleteStep | libveo_udma_ve.c:245-266 | a completed DMA stores the oldest chunk's length into its mailbox word and publishes the bytes of its slot in the host's area; the invariant says these are the chunk's own source bytes |
| VeUdmaRecv.RecvCheckTooLoose | libveo_udma_ve.c:351-358 | the written check accepts 50 bytes into 8-byte slots while 100 remain |
| VeUdmaRecv.RecvNegativeLengthAccepted | libveo_udma_ve.c:325-376 | the word 2^64 - 1, read into the int64_t tlen, is -1 and passes the written check with 10 bytes left, and lenp -= tlen raises lenp to 11; the corrected check refuses every word of 2^63 or more |
| VeUdmaRecv.RecvAcceptedFits | libveo_udma_ve.c:351-362 | an accepted length fits both what is left and the slot |
| VeUdmaRecv.LandsPost | libveo_udma_ve.c:360-372 | a DMA into a free slot keeps the bytes of the slots in flight |
| VeUdmaRecv.Deliver | libveo_udma_ve.c:385-393 | unpacked, the completed slot's bytes land at their recorded destination; packed, the destination is untouched |
| VeUdmaRecv.Filled | libveo_udma_ve.c:390-393 | unpacked, the first n destination bytes are the payload's and the rest unchanged |
| VeUdmaRecv.RecvInvMeans | libveo_udma_ve.c:322-415 | between iterations lenp is len minus the bytes posted, each length is 1..split_size, the consumer has work exactly when a chunk is in flight, and the destination holds the payload up to the completed chunks |
| VeUdmaRecv.RecvInvPost | libveo_udma_ve.c:335-379 | posting an accepted length keeps the receive invariant |
| VeUdmaRecv.RecvInvOldest | libveo_udma_ve.c:381-393 | the oldest slot in flight holds the payload bytes of the oldest chunk, destined for the end of the received prefix |
| VeUdmaRecv.RecvInvComplete | libveo_udma_ve.c:384-398 | completing the oldest chunk extends the received prefix and keeps the invariant |
| VeUdmaRecv.FillStep | libveo_udma_ve.c:390-393 | delivering the next chunk extends the filled prefix by its length |
| VeUdmaRecv.RecvProduce | libveo_udma_ve.c:335-379 | the producer half waits for a length, rejects one that does not fit, and DMAs the host's bytes into slot j |
| VeUdmaRecv.RecvConsume | libveo_udma_ve.c:381-411 | a completed poll delivers the slot to its destination and clears the word; EAGAIN is followed by the timeout test in the library only |
| VeUdmaRecv.RecvPostStep | libveo_udma_ve.c:335-379 | a post step keeps the invariant; a rejection names a length over what is left or over the slot |
| VeUdmaRecv.RecvCompleteStep | libveo_udma_ve.c:381-412 | a completion step keeps the invariant and completes exactly the oldest chunk |
| VeUdmaRecv.RecvRound | libveo_udma_ve.c:334-413 | one iteration keeps the invariant and consumes an answer of the environment or ends the transfer |
| VeUdmaRecv.Recv | libveo_udma_ve.c:322-415 | count is the bytes posted, each length is 1..split_size, the destination holds the payload up to the completed chunks (untouched when packed), Done exactly when everything was posted and completed, a rejection names the offending length |
| VeHello.ProtoRegister | libvehello.c:49-89 | records key, size and segment id; 0 exactly when the attach succeeded, else -1, 3 or 4 |
| VeHello.Mirrored | libvehello.c:117-122 | both sides have UDMA_NUM_BUFFS slots |
| VeHello.MirrorSlots | libvehello.c:117-122 | the mirror loop gives every VE send slot the host's receive slot, and every receive slot the host's send slot, translated to VEHVA |
| VeHello.LayOut | libvehello.c:152-161 | the layout loop hands out consecutive UDMA_BUFF_LEN pieces to send[j] and recv[j] in turn |
| VeHello.LaidOutConsecutive | libvehello.c:152-161 | the four mirror buffers follow each other in allocation order, do not overlap and fit the allocation |
| VeHello.ProtoMirrorSize | libvehello.c:134-136 | 2 * UDMA_NUM_BUFFS * UDMA_BUFF_LEN is 4 MiB, rounded up to 64 MiB |
| VeHello.ProtoInitSpec | libvehello.c:91-165 | malloc failure returns -ENOMEM; success exactly when every step succeeds, leaving every slot mirrored from the host and laid out; a failed registration leaves udma_peer NULL |
| VeHello.ProtoLibrary.RegisterShm | libvehello.c:49-89 | the method computes ProtoRegister on the globals |
| VeHello.ProtoLibrary.Init | libvehello.c:91-165 | the method computes ProtoInitSpec on the globals |
| VeHello.ProtoBadAttachSticks | libvehello.c:78-87 | a VEHVA of -1 stays; the next init succeeds and mirrors from -1 |
| VeHello.Land | libvehello.c:251-257 | the destination receives the first tlen bytes of the host's buffer |
| VeHello.Recv1 | libvehello.c:240-264 | with the length check, the count is at most len, the destination's prefix is the payload, Done exactly when all len bytes arrived, a rejection names the offending length, a failed DMA clears the word |
| VeHello.TakeAsWritten | libvehello.c:247-262 | the size_t remainder after taking lengths unchecked is len minus what was taken, modulo 2^64 |
| VeHello.UncheckedOverrun | libvehello.c:247-262 | recv1 of 4 bytes against an announced 5 copies 5 bytes and wraps lenp to 2^64 - 1; the checked Recv1 refuses the length |
| VeHello.SendProduceAsWritten | libvehello.c:201-213 | as written, the DMA carries slot j of the mirror, whatever it held, into the host's slot |
| VeHello.StaleChunkPublished | libvehello.c:201-213 | with a zeroed mirror, the first chunk published differs from the source's first chunk |
| VeHello.Send | libvehello.c:189-238 | the corrected send on two 1 MiB slots without timeouts publishes every completed chunk with its own bytes, Done exactly when all len bytes went |
| VeHello.Recv | libvehello.c:266-316 | the checked receive on two 1 MiB slots: lengths 1..1 MiB, the destination holds the payload up to the completed chunks, Done exactly when len bytes arrived |

## Left out

- `ve_udma_recv` with `pack` set: the unpacking (`_buffer_send_unpack`) is
  not part of this model. The model leaves the destination untouched then.
- Memory of the real machine: the mirror buffer and the host's data areas
  are arrays indexed from the slot base; pointer values appear only as
  numbers in the layout functions.
- DMA as an asynchronous copy: the model performs the copy when the
  descriptor is posted. On the VE's receive side, the host's copy of a
  chunk into its slot is modelled at the moment the VE sees the chunk's
  length (`RecvProduce`, `Recv1`). On the host's receive side, the VE's
  DMA of a chunk into the host's slot is modelled at the moment the host
  reads the chunk's length (`PullChunks`).
- Concurrency: the other side is a schedule of answers, not a process. No
  interleaving inside a step is modelled. The fences and volatile accesses
  have no counterpart.
- Timing: `usrcc_diff_us` and `UDMA_TIMEOUT_US` are a schedule of timeout
  answers, and `busy_sleep_us` is not part of this model.
- Spinning waits: a wait whose schedule runs out ends with `NoAnswer`
  (VE) or `Hung` (host) instead of spinning forever.
- Logging (`printf`, `eprintf`, `dprintf`) and the VE function addresses
  that `veo_get_sym` looks up are not part of this model.
- `pthread_mutex_trylock`/`unlock`: the lock state at the trylock is a
  parameter of the host transfers.
- `veo_args_*`, `veo_call_async` and the VE-side setup/close calls: their
  results are parameters.
- `ve_udma_fini` of `libvehello.c`: it matches `libveo_udma_ve.c`'s apart
  from the buffer named in the unregister call, whose result is only
  logged, and its missing return value; `VeUdma.FiniSpec` covers both.
- The `pack` argument of `ve_udma_recv`: `veo_udma_send` sets only four
  arguments (libveo_udma.c:333-337) for its five parameters, so the value
  the VE sees is not determined by the host's code. The model takes it as
  a parameter of `VeUdmaRecv.Recv`.
- HostRegistry.InitFixed: when the VE setup fails after the segment was
  attached, the segment is neither detached nor removed, as in the code.
  The model keeps no state for segments outside the tables, so this leak
  is not shown. A positive code from the VE setup is returned as it is,
  although the function is documented to return a negative number on an
  error.
- Fields of a freshly malloc'd struct that the code never writes are
  modelled as 0.
- VeUdma.Send, VeUdmaRecv.Recv: they require `split_size >= 1` and `1 <=
  split <= UDMA_MAX_SPLIT`, which the corrected split selection
  (`SplitTune.OverrideChecked`, `SplitTune.Chosen`) guarantees. The written
  override does not (see Findings). The loops with other values are not
  modelled.
- VeUdma.Send, VeUdmaRecv.Recv: the `(int)tlen` cast in `ve_dma_post` is not
  modelled, because chunks are at most `split_size`, far below 2^31 for
  every feasible choice.
- VeUdma.SendPacked: a wait that never ends is reported with the error
  code 0 like a success, because the function has no code for it. The
  contract distinguishes the two only through the ghost ending.
- VeHello.Recv1: a `ve_dma_post_wait` that answers `-EAGAIN` is treated as
  a failure like any other error code.
- VeHello.Send, VeHello.Recv: the prototype's `size_t` lenp cannot wrap
  once lengths are checked, so the `size_t` arithmetic is not modelled
  there. The unchecked code's wrap is modelled in `VeHello.TakeAsWritten`.

## Findings

| source | as written | input that shows it | evidently intended | confidence | as-written member | corrected member |
|---|---|---|---|---|---|---|
| libveo_udma.c:255 | the override bound is UDMA_BUFF_LEN - UDMA_MAX_SPLIT*8, 16 bytes more than the data area | UDMA_SPLIT_SEND=1, UDMA_SPLIT_SIZE_SEND=67108352 | slots inside the data area | not executed | SplitTune.LooseBoundAccepted | SplitTune.OverrideChecked |
| libveo_udma.c:254-260 | a split is taken with size 0 when the size variable is unset, and is not bounded by the number of mailbox words | UDMA_SPLIT_SEND=4 alone; UDMA_SPLIT_SEND=65 with size 1 | 1..UDMA_MAX_SPLIT slots of at least one byte | not executed | SplitTune.UnboundedSplitAccepted | SplitTune.OverrideChecked |
| libveo_udma.c:153-159 | the process count is raised before the peer's malloc and not lowered when it fails | first peer_init with the peer malloc failing | a failed init leaves the registry as it was | not executed | HostRegistry.CountLeakAsWritten | HostRegistry.InitFixed |
| libveo_udma.c:142-149 | udma_num_procs is raised before the process malloc | a failing first process malloc, then another init | the counter rises only with a live entry | not executed | HostRegistry.NullProcAsWritten | HostRegistry.InitFixed |
| libveo_udma.c:167 | the segment failure test is segid == -1, but vh_shm_init returns -errno | shmat failing with ENOMEM | any negative segid is a failure, cleaned up with vh_shm_fini and answered with its error or -ENOMEM as on lines 168-169 | not executed | HostRegistry.MissedShmFailureAsWritten | HostRegistry.InitFixed |
| libveo_udma.c:316-321 | the peer search dereferences slots that fini set to NULL | send after finishing the only peer | skip NULL slots | not executed | HostRegistry.NullSlotsAfterFini | HostRegistry.Scan |
| libveo_udma.c:142-151 | no bound check on udma_procs | a ninth process | refuse with -ENOMEM | not executed | HostRegistry.ProcTableOverflowAsWritten | HostRegistry.InitFixed |
| libveo_udma.c:404-417 | the host copies whatever length the VE announces | 10 bytes left, announced 16 | refuse a length over what is left or over split_size | not executed | HostTransfer.RecvOverrunAsWritten | HostTransfer.Recv |
| libveo_udma_ve.c:351 | only tlen > lenp is refused; a length larger than split_size is DMA'd into the next slots | split_size 8, 100 bytes left, announced 50 | refuse tlen > split_size too | not executed | VeUdmaRecv.RecvCheckTooLoose | VeUdmaRecv.Recv |
| libveo_udma_ve.c:339-351 | the mailbox word is read into the int64_t tlen, so a word of 2^63 or more is negative and passes tlen > lenp; lenp -= tlen then grows | 10 bytes left, word 2^64 - 1 | refuse a word outside 1..split_size | not executed | VeUdmaRecv.RecvNegativeLengthAccepted | VeUdmaRecv.Recv |
| libvehello.c:201-206 | the send DMAs the mirror slot without copying the source into it first | any send whose mirror does not already hold the source | memcpy the chunk into the mirror slot before the post | not executed | VeHello.StaleChunkPublished | VeHello.Send |
| libvehello.c:249-260 | recv1 and recv take any announced length and subtract it from the size_t lenp | recv1 of 4 bytes, announced 5 | refuse a length over what is left or over the buffer | not executed | VeHello.UncheckedOverrun | VeHello.Recv1 |
