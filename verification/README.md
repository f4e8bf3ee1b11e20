# Verified model of the Ambarella PCI platform driver

This project models the two stateful parts of `amba_pci_platform.ko` and the point where they meet, and proves what they
keep under every interleaving and over every run.

**The firmware ring** (`amba_pci_platform_transfer.c`). Host and endpoint (EP) share a mapped BAR: u32 registers,
20-byte descriptors from offset 80, 512-byte data blocks from offset 512.

- `Words.dfy`: register width, little-endian access, EP memory.
- `RingSpec.dfy`: the protocol as a value: shared memory, EP memory, what the host posted, what the EP executed; the
  invariant `Inv`.
- `RingPost.dfy`: which host writes are safe, and when a slot or block is free.
- `Layout.dfy`: BAR bytes as a ring (`Parse`), and the proof that each write changes one field only.
- `RingLimits.dfy`: the conditions of the protocol are exact.
- `Images.dfy`: chunk arithmetic, the command stream of an image and of a firmware set, and what executing it stores.
- `RingHost.dfy`, `RingTransfer.dfy`: the host code as methods on a byte array and a context object.
- `RingRetry.dfy`: whole transfer attempts on values, drained start or not, under every interleaving.

**The slot life cycle** (`amba_pci_platform_main.c`). Four slots driven by bus notifications, timeouts, ioctls and exit.

- `SlotSpec.dfy`: one critical section is one event of a state machine.
- `SlotTheorems.dfy`: invariants and conservation over all runs.
- `SlotEffects.dfy`: what each event does, field by field and in the numbers of the hardware.
- `SlotHistory.dfy`: transition table, registration history, timeouts, isolation.
- `Platform.dfy`: the handlers, updating the slot array in place, each proved equal to its event.

**The join**: `FirmwareRequest.dfy` (validation and lookup) and `FirmwareIoctl.dfy` (the firmware ioctl: a slot enters
BOOTING only with the three images executed by the EP). `HostToDevice.dfy` holds the two H2D copy loops.

## Assumptions about the environment

- The EP is not in the repository. `RingSpec.EpStep` is its assumed behaviour: while the registers say that a descriptor
  is pending it may at any moment decode it from shared memory, execute it (DATA stores the block at the address, other
  commands are only recorded) and advance `avail`; it writes nothing else. Its addresses wrap at 2^64. `RingHost.Bar.EpRun` lets it take any number
  of steps before every single host access to the BAR, including between the words of a descriptor and the bytes of a
  block. An EP that reads an entry piecemeal sees the same bytes (`RingTransfer.PiecemealReadIsExact`).
- Before the EP reports ONLINE, BAR and EP memory hold anything but that report (`RingHost.Bar.EpBoot`); the ring is sane
  from then on. The EP shows its magic number early only if it will keep it. The contracts speak of the ring that comes up.
- Nothing says that the EP runs at all; results that need it to are stated for an EP with a `lag`, one that catches up at
  least once in any `lag` + 1 register reads (`RingHost.Bar.Prompt`).
- Host writes become visible in program order.
- A deadline is an arbitrary finite number of polls, at least `patience`; allocation, `copy_from_user`, the transport and
  symbol lookup may fail, but only when `faults` says so, and proc node creation and BAR mapping succeed or fail as
  their arguments say. The user's buffer does not change during a call and holds `fw_size` bytes.
- A shift count in `1U << type` counts modulo 32, as on the processors the driver is built for.
- A device that reconnects during boot is announced after the removal of the old one. The driver warns otherwise
  (`amba_pci_platform_main.c:964`); `StepKeepsInvExactly` shows that conservation then fails.
- A work item's callback does not run twice at a time; `cancel_delayed_work` does not wait for a callback that has
  started, so a slot can have a pending timer and a waiting callback at once.

## Conditions the code does not check

The transfer theorems name these conditions. Each comes with a lemma that says exactly when it matters.

- The ring is drained when a context is set up (`RingLimits.FirstSlotDeadExactlyWhenDrained`); a successful transfer
  provides it for the next one, an earlier timed-out one may not, and then the retry's first post replaces the oldest
  pending entry (`RetryReplacesOldest`, `RetryLosesEntry`) and the whole retry is not what was intended
  (`RingRetry.RetryIntendedExactly`).
- The slot counter's wrap-around is harmless over the transfer (`RingPost.NoReuseExactly`): num divides 2^32, or there
  is no wrap, or the transfer is shorter than the remainder (`NeverCollideExactly`, `CursorSlotDeadExactly`,
  `WrapLosesEntry`).
- The blocks last (`RingPost.BlocksLastExactly`): num <= max_blk unless the image has no more than max_blk chunks
  (`TooFewBlocksCorruptData`), and the block counter's wrap-around is harmless over the image. At every counter value that
  means num <= max_blk and 2^32 mod max_blk is 0 or at least num (`NeverCollideExactly`, `CursorBlockDeadExactly`).
  Both are needed only within each transfer (`FirmwareRoomExactly`).
- `num <= 21`, so that descriptors end before the blocks (`DescriptorsClearOfBlocksExactly`).
- `max_blk != 0xffffffff`, or a map of 2 TiB (`MapTestSufficesExactly`).
- Image length at most 2^64 - 16; above it no data is sent and the transfer succeeds (`TotalIsExact`).
- Kernel at most 64 MiB, DTB at most 2 MiB, root file system ending by 2^64 (`IntactExactly`).
- Root file system below 4 GiB; from there on the EP is told the length modulo 2^32 (`InitrdToldExactly`).
- Image kinds below 32 (`LookupsSucceedExactly`, `FoldedKindIsAccepted`).
- A file sent to the EP ends by 2^64 (`SendFile`, `StoreIsFlatExactly`, `FileWrapsToZero`).
- A timeout callback left over from an earlier boot can fail a fresh one (`StaleCallbackFailsFreshBoot`); when exactly
  is `BootCutShortExactly`.

The repository's own README calls `amba_pci_platform_transfer.c` scatter-gather DMA logic; the code is a descriptor ring
filled by register writes and `memcpy_toio`, and the model follows the code.

## Model

| member | source | states |
|---|---|---|
| RingSpec.RegisterTestsAreExact | amba_pci_platform_transfer.c:197-243 | the wrapped comparisons decide exactly "a slot is free", "nothing is in flight" and "something is pending" at every counter value |
| RingSpec.ResyncExactlyWhenDrained | amba_pci_platform_transfer.c:306-327 | the cursor of a new context agrees with `used` iff the ring is drained |
| RingSpec.EpStepConsumesOldest | amba_pci_platform_transfer.c:341-354 | an EP step keeps the invariant and executes exactly the oldest pending entry, or does nothing when drained |
| RingSpec.EpStepsKeepInv | amba_pci_platform_transfer.c:306-386 | any number of EP steps keeps counters, FIFO prefix and pending entries; a drained ring stays drained until the next post |
| RingSpec.EpDrainsInOrder | amba_pci_platform_transfer.c:462-469 | an EP that keeps running executes everything posted, in order |
| RingPost.WriteDeadSlotKeepsInv | amba_pci_platform_transfer.c:341-346 | writing a slot that no pending entry uses keeps the invariant |
| RingPost.WriteDeadBlockKeepsInv | amba_pci_platform_transfer.c:348-349 | writing a block that no pending entry uses keeps the invariant |
| RingPost.PublishKeepsInv | amba_pci_platform_transfer.c:351-354 | publishing into a free slot keeps the invariant |
| RingPost.CursorSlotSafe | amba_pci_platform_transfer.c:335-346 | no live overwrite: with a free slot, the descriptor at the cursor belongs to no pending entry |
| RingPost.CursorBlockSafe | amba_pci_platform_transfer.c:346-349 | no live overwrite: the next block of the session belongs to no pending entry |
| RingPost.CursorSlotDeadExactly | amba_pci_platform_transfer.c:183-190 | the exact states in which the slot at the cursor is still live |
| RingPost.CursorBlockDeadExactly | amba_pci_platform_transfer.c:346-351 | the exact states in which the next data block is still live, when there are as many blocks as descriptors |
| RingPost.NoReuseExactly | amba_pci_platform_transfer.c:183-190 | over any stretch of the 32-bit counter, no slot (or block) is selected twice within the window in flight iff the wrap-around is harmless: a closed test on the two ends |
| RingPost.BlocksLastExactly | amba_pci_platform_transfer.c:346-351 | no two chunks in flight of a transfer of this length share a block iff there are enough blocks for the descriptors or for the chunks, and the block counter's wrap-around is harmless |
| Words.WrappedCollision | amba_pci_platform_transfer.c:183-190 | two in-flight positions share a slot iff the counter wrapped between them and their distance is 2^32 mod num |
| RingLimits.NeverCollideExactly | amba_pci_platform_transfer.c:183-195 | for descriptors and blocks alike: at every counter value, places in flight never coincide iff there are enough of them and 2^32 leaves remainder 0 or at least the number in flight; for descriptors that means num divides 2^32 |
| RingLimits.FirstSlotDeadExactlyWhenDrained | amba_pci_platform_transfer.c:324-341 | the first post of a context hits a live descriptor iff the ring was not drained, and its wait does not stop it |
| RingLimits.RetryReplacesOldest | amba_pci_platform_transfer.c:306-386 | the first post of a retry, data or command, is executed in place of the oldest pending entry; the EP's trace stays a prefix of what was posted iff the ring was drained or the two entries are equal |
| RingLimits.RetryLosesEntry | amba_pci_platform_transfer.c:306-386 | a run: post on a drained ring, time-out, retry; the first entry is never executed |
| RingRetry.RetryOutcome | amba_pci_platform_transfer.c:392-474 | an attempt that begins with d entries pending, under every interleaving: the poll succeeds exactly when the EP has executed d entries more than the attempt posted, the last ones read from memory as it stands |
| RingRetry.RetryTrace | amba_pci_platform_transfer.c:392-474 | as long as the EP does not run ahead of the host, it executes the intended stream and then d surplus descriptors |
| RingRetry.RetryIntendedExactly | amba_pci_platform_transfer.c:392-474 | under every interleaving the EP has executed exactly the intended stream when the poll succeeds iff nothing was pending at the start |
| RingLimits.TooFewBlocksCorruptData | amba_pci_platform_transfer.c:346-354 | for every num > max_blk and every stream of more than max_blk chunks: while the EP is idle the last of max_blk + 1 chunks overwrites the block of the first, and the EP stores the wrong bytes at the load address |
| RingLimits.WrapLosesEntry | amba_pci_platform_transfer.c:183-190 | with num = 3 at counter 2^32-1 an entry is lost and the next one executed twice |
| Layout.RegisterWrite | amba_pci_platform_transfer.c:352-353 | writing a counter register changes nothing else of the ring |
| Layout.DescWordWrite | amba_pci_platform_transfer.c:341-346 | writing a descriptor word changes that word and nothing else of the ring |
| Layout.BlockByteWrite | amba_pci_platform_transfer.c:348-349 | writing a byte of a block changes that byte and nothing else of the ring |
| Layout.DescriptorsClearOfBlocksExactly | amba_pci_platform_transfer.c:183-195 | descriptor writes never touch a block iff num <= 21 |
| Layout.MapTestSufficesExactly | amba_pci_platform_transfer.c:313-319 | the map-size test guarantees that every block is mapped iff max_blk + 1 does not wrap or the map has 2 TiB |
| Images.TotalIsExact | amba_pci_platform_transfer.c:416 | the streamed length is the least multiple of 16 not below the length iff the length is at most 2^64-16, else 0 |
| Images.ChunkShape | amba_pci_platform_transfer.c:422-443 | chunks are positive multiples of 16 up to 512, the all-padding branch is dead, only the last chunk is short or padded |
| Images.ReplayChunks | amba_pci_platform_transfer.c:422-443 | executing the first k chunks, each at its 64-bit address, is one store of the bytes they cover, at every load address and length |
| Images.ReplayImage | amba_pci_platform_transfer.c:392-474 | executing an image's entries is one store of the padded image at its load address, for every length |
| Images.ReplayFirmware | amba_pci_platform_main.c:280-288 | executing the three streams is three stores, one after the other, for all lengths |
| Images.CommandOrder | amba_pci_platform_transfer.c:445-462 | the EP's commands are SET_DTB, SET_INITRD with the unpadded length modulo 2^32, SET_LNX, in that order, SET_LNX last of all |
| Images.InitrdToldExactly | amba_pci_platform_transfer.c:456-462 | SET_INITRD tells the true length of the root file system iff it is below 4 GiB; at 4 GiB it tells 0 |
| Images.ImagesDoNotClobber | amba_pci_platform_transfer.h:65-70 | all three images are intact together when kernel and DTB fit their windows and the root file system ends by 2^64 |
| Images.IntactExactly | amba_pci_platform_transfer.h:65-70 | executing the stream leaves all three images intact, for all contents, iff kernel <= 64 MiB, DTB <= 2 MiB and the root file system ends by 2^64; all accepted lengths |
| RingHost.Bar.WaitU32 | amba_pci_platform_transfer.c:197-218 | success means the register holds (or does not hold) the value at return, only the EP acted meanwhile; it is certain when the comparison holds now and under every EP step, or holds once the EP has caught up and the EP is prompt |
| RingHost.Bar.XferPoll | amba_pci_platform_transfer.c:220-243 | success means the ring is drained, although three registers are read at three moments; a drained ring passes at once, a prompt EP in time |
| RingHost.Bar.WriteDesc | amba_pci_platform_transfer.c:341-346 | the five words end up in the slot under any interference, and the invariant holds throughout |
| RingHost.Bar.CopyToIo | amba_pci_platform_transfer.c:348-349 | the chunk ends up in the block under any interference, and the invariant holds throughout |
| RingHost.Bar.PublishUsed | amba_pci_platform_transfer.c:352-353 | the read-modify-write of `used` publishes exactly the entry at the cursor |
| RingTransfer.SessionGrows | amba_pci_platform_transfer.c:351-354 | a DATA post keeps cursor, block counter and round-robin blocks in step |
| RingTransfer.PiecemealReadIsExact | amba_pci_platform_transfer.c:341-349 | an EP that reads a pending descriptor word by word and its block byte by byte, at different moments, sees the posted entry |
| RingTransfer.PrefixExecuted | amba_pci_platform_transfer.c:466-469 | since a drained state the EP executed a prefix of what was posted and memory is what that prefix makes of it; all of it once drained again |
| RingTransfer.RingCtx.Init | amba_pci_platform_transfer.c:306-327 | succeeds iff num and max_blk (the words at 16 and 20) are nonzero and the wrapped size test passes; the cursor is the word at 8 less num, agrees with `used` iff the ring is drained, and then, with a reliable size test, host and ring are in step |
| RingTransfer.RingCtx.PostData | amba_pci_platform_transfer.c:329-359 | posts exactly one DATA entry, in bytes: the words 1, size, address low and high, block at 80 + 20 * slot, the chunk at 512 * (block + 1), the word at 12 up by one; on timeout it wrote nothing; a free slot or a prompt EP makes it succeed |
| RingTransfer.RingCtx.PostCmd | amba_pci_platform_transfer.c:361-386 | posts exactly one command, in bytes likewise, or nothing on timeout; a free slot or a prompt EP makes it succeed |
| RingTransfer.FillChunk | amba_pci_platform_transfer.c:426-437 | the chunk buffer holds the image's bytes and zeros, whichever branch is taken |
| RingTransfer.XferUser | amba_pci_platform_transfer.c:392-474 | on success, under every interleaving and for every length, the EP executed exactly this image's entries, memory is the old memory with the padded image stored, the ring is drained; on failure a prefix was posted; each error has its cause, so with a ring that can start, a prompt EP and no fault it succeeds |
| SlotTheorems.StepKeepsInvExactly | amba_pci_platform_main.c:961-1034 | a step keeps slot invariant, conservation and ids iff a reconnect does not overtake the matching removal |
| SlotTheorems.RunKeepsInv | amba_pci_platform_main.c:884-1034 | over every run from load: slot invariant, references and mappings conserved, live ids distinct, BOOTING slots have a timeout |
| SlotTheorems.ExitReleasesEverything | amba_pci_platform_main.c:1187-1201 | after exit no reference, mapping, timer or callback is left, whatever ran between the cancellations |
| SlotEffects.AddExactly | amba_pci_platform_main.c:973-1013 | which devices are registered, in what state, and which reconnect a booting slot, in vendor, device and class numbers; every other field, slot and count |
| SlotEffects.DelExactly | amba_pci_platform_main.c:1015-1034 | a removal takes device and mapping from a booting slot and clears any other; every other field, slot and count |
| SlotEffects.QueryExactly | amba_pci_platform_main.c:106-133 | a query of a disconnected slot maps its BAR iff the first usable attempt gets through, and then reads the board info once; nothing else changes |
| SlotEffects.FirmwareExactly | amba_pci_platform_main.c:260-297 | the ioctl refreshes likewise and starts the boot and its timer iff the BAR is mapped and the firmware delivered |
| SlotEffects.RefreshExactly | amba_pci_platform_main.c:74-103 | what a refresh does to a slot, and when it returns an error |
| SlotEffects.OneTryExactly | amba_pci_platform_transfer.c:93-123 | one mapping attempt: the BAR it records, the mapping it makes, the error for each cause |
| SlotEffects.MappingExactly | amba_pci_platform_transfer.c:93-152 | the BAR found before stays, else the first that is found is recorded; the mapping is of that BAR and length and exists iff the first usable attempt gets through |
| SlotEffects.RebootExactly | amba_pci_platform_main.c:653-663 | a reboot write moves exactly a connected slot with a device |
| SlotEffects.TimersExactly | amba_pci_platform_main.c:148-169 | what firing, running and cancelling a timeout change |
| SlotEffects.ExitStepsExactly | amba_pci_platform_main.c:1187-1201 | the release at exit clears every slot in use and the id counter |
| SlotTheorems.EnsureMappedExactly | amba_pci_platform_transfer.c:93-152 | mapping times out iff no attempt finds an addressed BAR; otherwise the first that does decides the result |
| SlotTheorems.RefreshFrame | amba_pci_platform_main.c:74-103 | a refresh maps only a disconnected slot with a device, exactly when it succeeds, and never changes info once read |
| SlotHistory.StepIsLocal | amba_pci_platform_main.c:945-1034 | an event for one bus changes no other slot |
| SlotHistory.AddTwiceExactly | amba_pci_platform_main.c:973-1013 | adding a device twice is adding it once, except when proc creation first fails and then succeeds |
| SlotHistory.RescanChangesNothing | amba_pci_platform_main.c:1069-1091 | the load-time scan changes nothing for slots already registered |
| SlotHistory.TransitionsExactly | amba_pci_platform_main.c:973-1034 | the whole transition table: which event in which situation registers, releases, boots, connects, fails or reboots a slot, both directions |
| SlotHistory.OneRegistration | amba_pci_platform_main.c:260-297 | within one registration the state only moves forward, the id stays, firmware succeeds at most once |
| SlotHistory.InfoReadOnce | amba_pci_platform_main.c:79-99 | within one registration board info changes at most once |
| SlotHistory.BootAlwaysTimesOut | amba_pci_platform_main.c:162-169 | in every reachable state, until exit cancels its timer, a BOOTING slot has a timeout that ends it |
| SlotHistory.CallbackOnlyEndsBoots | amba_pci_platform_main.c:148-160 | a late callback changes a slot iff it is booting |
| SlotHistory.BootCutShortExactly | amba_pci_platform_main.c:148-169 | a callback can turn a boot to BOOT_FAILED while its own timer is still pending iff it was already waiting when the timer was scheduled |
| SlotHistory.StaleCallbackFailsFreshBoot | amba_pci_platform_main.c:961-968 | a legitimate run in which that happens |
| Platforms.Platform.GetPciSlotId | amba_pci_platform_main.c:945-959 | the table search returns the bus's slot, or -1 |
| Platforms.Platform.EntryDetachPdev | amba_pci_platform_main.c:135-146 | unmaps, drops the reference and forgets the device, or does nothing without one |
| Platforms.Platform.ReleaseDev | amba_pci_platform_main.c:884-908 | equals the release step of the state machine |
| Platforms.Platform.InitSlot | amba_pci_platform_main.c:910-943 | equals the registration step; succeeds iff the proc nodes could be created |
| Platforms.Platform.HandleAdd | amba_pci_platform_main.c:973-1013 | equals the Add event |
| Platforms.Platform.HandleDel | amba_pci_platform_main.c:1015-1034 | equals the Del event |
| Platforms.Platform.MapBootBar | amba_pci_platform_transfer.c:93-123 | one mapping attempt, with the error that each kernel answer leads to |
| Platforms.Platform.EnsureMapped | amba_pci_platform_transfer.c:125-152 | at most three attempts, repeated only while the BAR is unassigned; ENXIO becomes ETIMEDOUT |
| Platforms.Platform.RefreshBoardInfo | amba_pci_platform_main.c:74-103 | equals the refresh function, error code included |
| Platforms.Platform.RebootWrite | amba_pci_platform_main.c:653-675 | equals the Reboot event; succeeds iff the slot went from CONNECTED to REBOOTING |
| Platforms.Platform.BootTimeoutFn | amba_pci_platform_main.c:148-160 | equals the callback step |
| Platforms.Platform.Exit | amba_pci_platform_main.c:1187-1201 | unregister, cancel each timer without the mutex while queries, reboot writes and callbacks go on, release all: a run of the state machine that ends with nothing held |
| FirmwareRequest.Validate | amba_pci_platform_main.c:229-253 | returns success iff the request is acceptable |
| FirmwareRequest.AcceptedExactly | amba_pci_platform_main.c:229-253 | acceptable means: slot below 4, pointer and size nonzero, three nonempty images inside the blob, kinds 0, 1, 2 modulo 32 in some order |
| FirmwareRequest.FindImage | amba_pci_platform_transfer.c:476-487 | finds the first descriptor of a kind, or none |
| FirmwareRequest.LookupsSucceedExactly | amba_pci_platform_main.c:238-253 | for an accepted request all three lookups succeed, on distinct descriptors, iff no kind is folded by the shift |
| FirmwareRequest.FoldedKindIsAccepted | amba_pci_platform_main.c:238-253 | kind 32 is accepted in place of the DTB and the lookup of the DTB finds nothing |
| FirmwareRequest.UserBytesInBlob | amba_pci_platform_transfer.c:427-432 | every user byte read lies inside the blob |
| FirmwareIoctl.PartOfTheStream | amba_pci_platform_main.c:280-291 | a transfer broken off anywhere posted a prefix of the whole command stream |
| FirmwareIoctl.FirmwareRoomExactly | amba_pci_platform_main.c:280-288 | the room asked for the whole firmware is exactly the room each transfer needs when its turn comes |
| FirmwareIoctl.WaitEpReady | amba_pci_platform_transfer.c:264-283 | success means that the EP is up and the words at 0 and 4 are 0x61626d61 and 1; an EP that is ready is not waited for |
| FirmwareIoctl.TransferAll | amba_pci_platform_main.c:280-291 | the three transfers resynchronise one after the other; always a prefix of the whole stream, all of it on success |
| FirmwareIoctl.DeliveryLeavesImagesIntact | amba_pci_platform_main.c:280-288 | after delivery of images whose lengths fit, all three are intact in EP memory at once, and every address outside them is as before |
| FirmwareIoctl.XferFirmware | amba_pci_platform_main.c:214-304 | the slot enters BOOTING iff the call succeeds, and then the EP executed exactly the three images' stream, holds them if their lengths fit, and knows the root file system's length iff it is below 4 GiB; on failure every slot's state is as before and the EP executed a prefix of the stream; which error for which cause, and success when nothing speaks against it |
| HostToDevice.ChunkingIsIrrelevant | amba_pci_platform_main.c:452-465 | any chunking of a source is one store of the whole |
| Words.StoreIsFlatExactly | amba_pci_platform_main.c:371-386 | storing at 64-bit addresses is a flat copy iff the bytes end by 2^64, whatever they are |
| HostToDevice.FileWrapsToZero | amba_pci_platform_main.c:371-386 | a two-byte file for the last address is let through and its second byte lands at address 0 |
| HostToDevice.SendBuffer | amba_pci_platform_main.c:399-473 | success is one flat copy to the slot's device; after a failure whole chunks form an exact prefix and nothing beyond the current chunk changed; which arguments and slots are refused with which error, and success otherwise unless something fails |
| HostToDevice.SendFile | amba_pci_platform_main.c:306-397 | under arbitrary short reads success stores the whole file, which is a flat copy iff it ends by 2^64; after a failure an exact prefix; refusals and success as for a buffer |

## Left out

- RingTransfer.XferUser: requires a drained ring, num <= 21, a reliable map-size test and counters with room, which the code does not check; without them it may overwrite a live entry, as the lemmas named above show.
- RingTransfer.RingCtx.Init: requires num <= 21, as the BAR's validity does.
- RingTransfer.RingCtx.PostData: requires a context in step with the ring and counters with room; the failing runs of RingLimits use `AfterPost`, its proved effect where it is specified.
- RingTransfer.RingCtx.PostCmd: requires a context in step with the ring and a slot counter with room.
- FirmwareIoctl.TransferAll: requires what three transfers in a row require.
- FirmwareIoctl.XferFirmware: requires what its transfers require, and kinds below 32; for others the code dereferences a null pointer, which has no outcome here.
- HostToDevice.SendFile: of the path only whether it is empty is modelled.
- HostToDevice.SendBuffer: the slot is checked once and is not held during the copy; what happens to the slot meanwhile is not part of it, as in the code.
- SlotSpec.Step: a platform query over all slots is a sequence of one-slot queries; the hot removal after the mutex is dropped is a later Del event; the unlocked in-use test of the reboot write is not modelled.
- RingRetry.Turn: one post of an attempt is one step; PostData and PostCmd have the finer interleavings, on a context in step with the ring.
- RingSpec.EpStep: one EP step is atomic; PiecemealReadIsExact covers an EP that spreads its reads.
- Proc file formatting and parsing, and proc nodes beyond "created or not": string plumbing.
- Module init and unwind of the character device, class and control device: linear cleanup.
- Board info contents are one number; copying the fields out is not modelled.
- The network, turbo and RDMA headers and the symbols of other modules: only declarations are in the repository; the H2D transport is "stores the chunk or fails after storing anything over part of it".
- Real time, jiffies and sleeping; PCI configuration writes and BAR resources beyond the outcome of each attempt.
- Weak ordering of device memory accesses.
