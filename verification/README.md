# Verified core of the PinePhone UEFI package

A Dafny model of the parts of the firmware whose correctness spans several functions: the SD/MMC
storage stack, the partition-table writer, the boot memory map, the frame buffer, the USB FIFO and the
SMBIOS record builder. `dafny verify dfyconfig.toml` checks the whole project.

## The storage stack

`Card` is the card and the driver's `struct mmc`: contents by hardware partition and block, the
EXT_CSD[179] byte with the driver's cached copy, a ghost log of every data, erase and sanitize command, and a ghost
count of failures, so that contracts also say what must succeed when nothing fails. Each command may fail; a failed write or erase leaves arbitrary contents in what it names. Erases act on
whole erase groups, trims and discards on blocks, and an erase whose end precedes its start names nothing.
Command arguments are 32 bits wide: block numbers on high-capacity cards, byte addresses on others.

`Transfer` is the chunked read and write. `Purging` is alignment, skip accounting, erase, trim and wipe.
`SecureStore` is the protected window and its two-copy items. `Boot` is partition switching and the boot
image. `Window` says exactly when a write, trim, erase or wipe reaches the window. `BlockOps` is the operation
table with the guarded entry points, each proved to be a `Step` for every request the C types can carry. `Runs`
proves what holds over every sequence of such steps.

Results that a reader of one function would not expect:

- `check_secure_area` compares ends cut to 32 bits and refuses no request that runs past 2^32. The transfers go
  on from block 0 there, so it is exact for requests that end at or below 2^32, or that wrap, start behind the
  window and end in front of it, and for no others (`CheckExact`, `WriteSafeEverywhere`).
- `mmc_align_erase_group` leaves early with a start moved past the request. This is harmless only because the
  count it leaves is never a multiple of the group size, so `mmc_erase` refuses it (`AlignInside`).
- The clip of the erase family subtracts the start from the device size. On a block-addressed card a request that
  starts beyond the device in the last, incomplete erase group of the 32-bit space then erases the device from
  block 0, the secure window included (`BeyondDevice`, `EscapeHits`, `EscapeExists`). Among requests that end at or
  below 2^32 these are the only ones that breach the window there (`BlockAddressedBreach`). Every run of requests that
  avoid this and what follows, all of which a caller can see beforehand, isolates the window (`CarefulIsolates`).
- A byte-addressed card sees block numbers modulo 2^23. Erases, trims and wipes that start at 2^23 or more pass the
  check and can reach the window (`TrimWindow`, `WipeTrimWindow`, `ByteGroupWindow`, `EvenEraseExact`, `EvenWipeWindow`; inputs in
  `ByteTrimExists`, `ByteEraseExists`). Requests that end below 2^32 and start inside the device do not
  (`ByteAddressedSafe`). The clip does not see a request that ends at 2^32 exactly (`ByteEraseToTop`,
  `ByteWriteExists`).
- A torn item write is atomic, and a series of torn writes is atomic if and only if no failure in the second copy is
  followed, without a success between, by a failure in the first, or all values of that many blocks have been written,
  which takes at least 255 attempts (`AtomicExactly`).
- The item test uses `>`, so item 32 is accepted and lies just past the window (`ItemPlaces`).
- `mmc_do_switch` ignores a failed SWITCH command; only the read-back of EXT_CSD decides. A failed switch back
  after a boot image operation leaves the card in the boot partition, and items read there differ
  (`MovedPartitionHidesItem`). Items last through every run that does not breach the window if and only if the boot
  partition is disabled or the logical offset leaves no room for the boot image path (`ItemsLastExactly`). A breaching
  request can destroy them. With `CONFIG_MMC_LOGICAL_OFFSET` at 0,
  as the headers set it, that path is never taken (`NoBootPathAtOffsetZero`).
- With both boot locations enabled a burn can succeed and the fetch return other bytes (`BootRoundTripExact`).

## The other cores

`Division` is the 64-by-32-bit division, `Clock` the card clock divider, `DmaChain` the descriptor chain, `Mbr`
the boot records, `MemoryMap` the HOB carving and the placement of the UEFI region, `FrameBuffer` the block
transfers, `UsbFifo` the packets and `Smbios` the records. `Words` holds machine integers and shared arithmetic.

- The firmware carving compares with the top of system memory where the top of the HOB is meant. On lists without
  overlap this is harmless (`DisjointCarved`). On overlapping lists it can take PRESENT from other memory
  (`OutsideKeptExactly`), and the firmware ends up absent exactly when no earlier HOB holds it or, present, reaches
  into it (`FdAbsentExactly`); `OverlapMisleads` is a list on which both fail.
- The assertions of `InitializeMemory` let firmware through that starts below system memory and ends above it, and
  no other overlap; the UEFI region then lies inside the firmware (`InitializeMemory`).
- The frame-buffer copy loop is correct exactly for copies that do not move down onto lines still to be read
  (`CopyExact`).
- The comment on `LogSmbiosData` allows a null string list, but the writing loop dereferences it; the model takes
  a list, possibly empty.

## Assumptions

- `Config.Valid`: a positive transfer limit and erase group and a device of at least one block, all of which the
  command argument can name, as device creation and start-up establish. Blocks are 512 bytes.
- `lbaint_t` is 32 bits, the configured width; starts of the plain block operations are 64 bits and are cut as the
  code cuts them.
- Which blocks an operation can alter is stated for all requests. That they are blocks of the request is stated for
  requests that end at or below 2^32, on byte-addressed cards below it (`Fits`), for erases and trims as far as `Sound`
  and `TrimSound` go, and for wipes when the command argument can express the whole request (`Addressable`).
- At the start of a run the driver's copy of the partition byte names the partition the card is in, as start-up leaves
  it.
- The exact condition for series of torn writes takes an item to fit into one chunk; the transfer limit is 65535
  blocks and an item has 8.
- A failed SWITCH leaves the EXT_CSD byte old or as requested. CopyMem handles overlap.

## Model

| member | source | states |
|---|---|---|
| Transfer.ReadBlocks | Drivers/SunxiSdMmcDxe/mmc.c:251-297 | One read chunk issues one read command and returns 0 or its count; on success the data are the card's blocks, the ignored status failure changes nothing, and without a failure it succeeds. |
| Transfer.Bread | Drivers/SunxiSdMmcDxe/mmc.c:299-339 | A chunked read returns 0 or the count; its commands are a prefix of the chunk sequence, all of it on success, when the buffer equals the card range as one read would give it; it succeeds when no command fails and the 32-bit bounds test passes, and is refused without a command when it does not. |
| Transfer.WriteBlocks | Drivers/SunxiSdMmcDxe/mmc_write.c:898-953 | One write chunk is refused by the 32-bit bounds test with no effect, or issues one write command; it alters only its range and on success the range holds the data. |
| Transfer.Bwrite | Drivers/SunxiSdMmcDxe/mmc_write.c:955-986 | A chunked write returns 0 or the count; its commands are a prefix of the chunks up to the first the bounds test refuses, all of them when no command fails, and then the answer is the count exactly when nothing was refused; on success the card equals the data on the range and is unchanged elsewhere; on failure some number of whole chunks hold the data, one chunk holds anything and nothing else changed. |
| Transfer.ChunkedTiles | Drivers/SunxiSdMmcDxe/mmc.c:326-336 | The commands of a complete transfer follow one another without gap or overlap over the requested range, none empty and none above b_max. |
| Transfer.TilesNameOnce | Drivers/SunxiSdMmcDxe/mmc_write.c:973-983 | Every block of the range is named by exactly one of those commands and no other block by any. |
| Transfer.SentPrefix | Drivers/SunxiSdMmcDxe/mmc_write.c:973-983 | What is sent before a refusal is a prefix of the chunk commands of the whole request. |
| Transfer.SentWrites | Drivers/SunxiSdMmcDxe/mmc_write.c:973-983 | No write command of a request that does not wrap names a block outside it. |
| Transfer.SentComplete | Drivers/SunxiSdMmcDxe/mmc_write.c:973-983 | A write that does not wrap is sent completely exactly when it ends inside the device. |
| Transfer.WriteReach | Drivers/SunxiSdMmcDxe/mmc_write.c:906-983 | For every request, device size, transfer limit and addressing, the commands alter exactly the blocks of a closed form: the whole chunks in front of the device end, the chunk that crosses 2^32 if its wrapped end is inside the device, and the wrapped rest. |
| SecureStore.CheckExact | Drivers/SunxiSdMmcDxe/sunxi_mmc_interface.c:241-261 | The check agrees with overlap, counted with the cursor that wraps at 2^32 as the transfers count, exactly for requests that end within 2^32 or wrap from behind the window to in front of it; it refuses no request that runs past 2^32. |
| SecureStore.CheckMissesWrappingRequest | Drivers/SunxiSdMmcDxe/sunxi_mmc_interface.c:244-258 | Two wrapping requests that meet the window and pass the check; the second one sends a write from block 0. |
| SecureStore.OverlapsMeaning | Drivers/SunxiSdMmcDxe/sunxi_mmc_interface.c:246-257 | Overlap, as the check should decide it, means sharing a block with the window. |
| SecureStore.MeetsMeaning | Drivers/SunxiSdMmcDxe/sunxi_mmc_interface.c:244-257 | With the wrapping cursor a request meets the window when it overlaps it on plain numbers or wraps past the start of it. |
| SecureStore.ItemPlaces | Drivers/SunxiSdMmcDxe/sunxi_mmc_interface.c:412-428 | Items never share a block; an accepted item lies inside the window exactly when it is below 32, so the item number 32 that the test lets through lies outside. |
| SecureStore.WriteItem | Drivers/SunxiSdMmcDxe/sunxi_mmc_interface.c:402-434 | Returns the count exactly when both copies hold the data, at blocks 12288 + 16 item and 8 further on; a failure leaves either the second copy untouched or the first copy complete; without a failed command it succeeds; refused requests change nothing; its commands are those of the two writes and the card changes only by them. |
| SecureStore.ReadItem | Drivers/SunxiSdMmcDxe/sunxi_mmc_interface.c:436-503 | Succeeds only with a value on which both copies agree, and without a failed command exactly then, by reading both; writes the caller's buffer only then. |
| SecureStore.ReadItemBackup | Drivers/SunxiSdMmcDxe/sunxi_mmc_interface.c:505-537 | Succeeds only with the contents of the second copy, and always without a failed command. |
| SecureStore.TornWriteAtomic | Drivers/SunxiSdMmcDxe/sunxi_mmc_interface.c:402-503 | From two equal copies, after a write that broke off anywhere and any changes outside the item, a successful read of that many blocks returns the old or the new value, never a mixture. |
| SecureStore.HistoryTracked | Drivers/SunxiSdMmcDxe/sunxi_mmc_interface.c:421-433 | Through any history of complete and torn writes each copy holds the value that tracking the outcomes predicts. |
| SecureStore.KnownValues | Drivers/SunxiSdMmcDxe/sunxi_mmc_interface.c:421-433 | The tracked values are ones somebody stored, and both copies are lost exactly when a write broke off in the second copy and only first-copy failures, at least one, followed. |
| SecureStore.ManyTornWritesAtomic | Drivers/SunxiSdMmcDxe/sunxi_mmc_interface.c:402-503 | Unless both copies are lost in that sense, every successful read after any number of torn writes, with any transfer limit, returns a value some write stored. |
| SecureStore.BothTornLosesValue | Drivers/SunxiSdMmcDxe/sunxi_mmc_interface.c:421-432 | The condition is needed for every history: any series of attempts that loses both copies, on any card with the old value in both, can leave both agreeing on any value of 512-byte blocks whatever. |
| SecureStore.AtomicExactly | Drivers/SunxiSdMmcDxe/sunxi_mmc_interface.c:402-503 | A series of complete and torn writes is atomic if and only if it does not lose both copies or every value of that many blocks has been written; the latter takes at least 255 attempts. |
| SecureStore.OutcomeWritten | Drivers/SunxiSdMmcDxe/sunxi_mmc_interface.c:421-433 | What the two chunked writes of an item can leave is what the accounts of complete and torn writes say. |
| Purging.AlignEraseGroup | Drivers/SunxiSdMmcDxe/mmc_write.c:309-343 | Computes the start rounded up to a group and the count cut to whole groups, or, on the early exit, the unreduced count. |
| Purging.AlignInside | Drivers/SunxiSdMmcDxe/mmc_write.c:309-343 | The early exit always leaves a count that no aligned erase accepts; otherwise the result is a group-aligned range inside the request. |
| Purging.AlignKeepsGroups | Drivers/SunxiSdMmcDxe/mmc_write.c:319-332 | Alignment gives up no whole group: every erase group inside the request is inside the aligned range. |
| Purging.EraseRange | Drivers/SunxiSdMmcDxe/mmc_write.c:345-409 | Requests that are empty, for SD cards, of unknown kind or not group-aligned send nothing; 0 means exactly one completed purge of the range was sent, for a secure trim exactly its two steps; without a failed command an accepted request returns 0. |
| Purging.ExtentExact | Drivers/SunxiSdMmcDxe/mmc_write.c:370-396 | A purge with given arguments alters exactly its extent, group rounding included, and a completed one covers it. |
| Purging.AddSkip | Drivers/SunxiSdMmcDxe/mmc_write.c:424-431 | Records one skipped range and leaves the other slot alone. |
| Purging.InsecureSecureErase | Drivers/SunxiSdMmcDxe/mmc_write.c:433-484 | 0 means the planned aligned range was purged and the skips around it recorded; -1 means the whole request is recorded as skipped; nothing is sent unless the plan is acceptable. |
| Purging.EraseAccounting | Drivers/SunxiSdMmcDxe/mmc_write.c:452-481 | An accepted plan and its recorded skips are disjoint and make up the request exactly, the plan is group-aligned and inside the request, and no subtraction wraps. |
| Purging.PurgesExact | Drivers/SunxiSdMmcDxe/mmc_write.c:370-396 | Even with the card rounding erases to whole groups, an accepted purge alters exactly its range, and a completed one covers all of it. |
| Purging.EraseAccounts | Drivers/SunxiSdMmcDxe/mmc_write.c:433-484 | Every block of an erase request is covered by a completed purge or is in a recorded skip, and no command reaches outside the request. |
| Purging.DoSecureWipe | Drivers/SunxiSdMmcDxe/mmc_write.c:486-596 | Unless an error code is returned every block is purged or recorded as skipped; 0 covers all the purge reaches, and is returned when there is something to purge and no command fails; newer cards end with a completed sanitize; refused wipes send nothing; nothing outside the request is altered. |
| Purging.WipeIsSupported | Drivers/SunxiSdMmcDxe/mmc_write.c:508-576 | Every purge command of a wipe, on every card, is one its feature bits offer, and trims are used exactly when the card trims. |
| Purging.WipeIsSecure | Drivers/SunxiSdMmcDxe/mmc_write.c:508-563 | Up to version 4.41, numerically, a card with secure purges gets only those and another only plain trims; above it the purge is plain and the card has the sanitize. |
| Purging.WipeAimExists | Drivers/SunxiSdMmcDxe/mmc_write.c:499-576 | A wipe has something to send exactly when it is not empty, the card is not refused, and it trims or the request has a whole group. |
| Purging.SecureWipe | Drivers/SunxiSdMmcDxe/mmc_write.c:598-626 | 0 only if a completed purge covered every requested block, and then on newer cards the last command is a completed sanitize; 1 only if every block outside the skip list was covered; -1 without a command for refused cards and never when nothing fails; an empty request answers from the stale skip word. |
| Purging.EraseClipped | Drivers/SunxiSdMmcDxe/mmc_write.c:654-664 | After clipping to the device every block is purged or recorded as skipped, whatever the outcome, for every request that starts inside the device and ends below 2^32; purges carry exactly the clipped and aligned arguments; sound requests alter only their blocks of the device. |
| Purging.MmcErase | Drivers/SunxiSdMmcDxe/mmc_write.c:628-688 | 0 only if every block of the clipped request was purged, 1 only if every block outside the skip list was, -1 exactly for SD cards or a disabled erase; purges carry exactly the clipped and aligned arguments and cover their reach when nothing fails; a sanitize is sent exactly when configured and supported. |
| Purging.MmcSecureErase | Drivers/SunxiSdMmcDxe/mmc_write.c:804-853 | The same accounting for the secure erase; 0 means all its purge reaches was covered, and is returned when nothing fails; without the feature nothing is sent; sound requests alter no block of the device outside them. |
| Purging.MmcTrim | Drivers/SunxiSdMmcDxe/mmc_write.c:719-802 | Trim, discard and secure trim: 0 only if every block of the clipped request was purged, and always when nothing fails; -1 without a command when the card lacks the feature; requests that do not wrap and do not start beyond a byte-addressed device alter no block of the device outside them; for all others the purge carries exactly the clipped arguments. |
| Purging.MmcSanitize | Drivers/SunxiSdMmcDxe/mmc_write.c:690-717 | Sends one sanitize exactly when the card is an eMMC that supports it, and reports whether it completed. |
| Purging.BeyondDevice | Drivers/SunxiSdMmcDxe/mmc_write.c:654-661 | On a block-addressed card a request starting beyond the device erases exactly the whole groups of the device from block 0 when clip and rounding both wrap, and no block of the device otherwise. |
| Purging.ClippedErase | Drivers/SunxiSdMmcDxe/mmc_write.c:628-661 | Erases that start inside the device, on any card, and others that do not escape, on block-addressed cards, keep to their request after clipping and alignment. |
| Purging.ClippedTrim | Drivers/SunxiSdMmcDxe/mmc_write.c:736-743 | Trims keep to their request after clipping, except those that start beyond a byte-addressed device. |
| Window.WriteWindow | Drivers/SunxiSdMmcDxe/mmc_write.c:906-983 | Writes that pass the check: none that ends below 2^32 reaches the window; on block-addressed cards none that ends at 2^32 or wraps clear of it; on byte-addressed cards one that ends at 2^32 exactly when it is one command whose cut start is below the window end. |
| Window.WriteSafeEverywhere | Drivers/SunxiSdMmcDxe/mmc_write.c:965-983 | A write that passes the check is safe on block-addressed cards of every size and transfer limit if and only if it does not wrap or wraps clear of the window. |
| Window.TrimWindow | Drivers/SunxiSdMmcDxe/mmc_write.c:736-749 | Trims and discards that pass the check reach the window exactly on byte-addressed cards, from a start of 2^23 or more whose remainder is below the window end and not behind the clipped end, which is not in front of the window. |
| Window.WipeTrimWindow | Drivers/SunxiSdMmcDxe/mmc_write.c:513-541 | The same for wipes that trim, whose end is not clipped. |
| Window.WipeGroupWindow | Drivers/SunxiSdMmcDxe/mmc_write.c:523-524 | On block-addressed cards a wipe by groups that passes the check reaches the window exactly when it runs past 2^32 and its rounded range does not wrap but covers window blocks, or its start is rounded up to 2^32 and the rest reaches the window. |
| Window.EraseWindow | Drivers/SunxiSdMmcDxe/mmc_write.c:628-661 | The same for erases: exactly the escaping ones when the whole groups of the device reach into the window, and wrapping ones that end inside the device. |
| Window.EscapeHits | Drivers/SunxiSdMmcDxe/mmc_write.c:654-661 | An erase that starts beyond a block-addressed device and is clipped hits the window exactly when it escapes and the whole groups of the device reach into the window. |
| Window.EscapeExists | Drivers/SunxiSdMmcDxe/mmc_write.c:654-661 | A concrete request of that kind that passes the check. |
| Window.ByteGroupWindow | Drivers/SunxiSdMmcDxe/mmc_write.c:628-661 | For groups of any size and requests that pass the check and end within 2^32: an erase or wipe reaches the window exactly if its start rounded up is not addressable, it is not one that starts inside the device and is clipped, and the groups of its plan, both ends cut by the argument, include a window block. |
| Window.EvenEraseExact | Drivers/SunxiSdMmcDxe/mmc_write.c:628-661 | When the group size divides the addressable blocks, an erase that passes the check reaches the window exactly if it starts beyond the device and its rounded, cut start is below the window end and the last whole group, or if it ends at 2^32 and its cut range covers window blocks. |
| Window.EvenWipeWindow | Drivers/SunxiSdMmcDxe/mmc_write.c:523-554 | The same for wipes by groups: exactly when the rounded range, both ends cut to the addressable blocks, covers window blocks. |
| Window.ByteTrimExists | Drivers/SunxiSdMmcDxe/mmc_write.c:43-82 | A request at 2^23 + 12288 on a byte-addressed card that passes the check and whose trim or trimming wipe reaches the window. |
| Window.ByteEraseExists | Drivers/SunxiSdMmcDxe/mmc_write.c:43-82 | The same request reaches it as an erase and as a wipe by groups. |
| Window.ByteWriteExists | Drivers/SunxiSdMmcDxe/mmc_write.c:906-928 | A write that ends at 2^32 exactly, passes the check and starts at the window of a byte-addressed card. |
| Window.ByteEraseToTop | Drivers/SunxiSdMmcDxe/mmc_write.c:654-661 | An erase that starts inside a byte-addressed device and ends at 2^32 exactly passes the check, is not clipped and erases the device from block 0. |
| Boot.SwitchPart | Drivers/SunxiSdMmcDxe/mmc.c:1471-1505 | Success leaves the cached byte equal to EXT_CSD[179] with the requested access field; failure keeps the cache and leaves the card's byte old or as requested; without a failure it succeeds. |
| Boot.SwitchBootPart | Drivers/SunxiSdMmcDxe/mmc.c:1437-1469 | The same for the boot partition and acknowledge fields. |
| Boot.SwitchKeepsOtherBits | Drivers/SunxiSdMmcDxe/mmc.c:1449-1485 | Both switches keep the other fields; bit 7 survives a boot switch exactly when it was set or the unmasked acknowledge value has no second bit. |
| Boot.DoBurnBoot | Drivers/SunxiSdMmcDxe/sunxi_mmc_interface.c:24-55 | A successful burn holds the image and was read back in full; nothing outside the range is altered; inside the device it succeeds when nothing fails. |
| Boot.BurnBoot | Drivers/SunxiSdMmcDxe/sunxi_mmc_interface.c:57-134 | A burn that returns the count leaves the image in one of the enabled locations, and when nothing fails in all of them, with boot mode enabled or disabled as configured and the card back in the user area; no block at or above the end of the request is altered in any partition; its commands are those of the enabled writes, and the partition bytes change only by its switches. |
| Boot.GetBoot | Drivers/SunxiSdMmcDxe/sunxi_mmc_interface.c:136-187 | A fetch that returns the count delivers the contents of one of the enabled locations and only reads; when nothing fails it is the user copy if enabled, else the boot copy with the card back in the user area; without an enabled boot partition the partition bytes stay. |
| Boot.NoMove | Drivers/SunxiSdMmcDxe/sunxi_mmc_interface.c:57-187 | Without an enabled boot partition neither burn nor fetch moves a card whose partition the driver knows. |
| Boot.BurnCanMove | Drivers/SunxiSdMmcDxe/sunxi_mmc_interface.c:98-109 | With one, from any partition bytes, a burn whose switch back fails leaves the card in the boot partition. |
| Boot.BootRoundTrip | Drivers/SunxiSdMmcDxe/sunxi_mmc_interface.c:57-187 | With at most one location enabled, an image burned and left alone is the image fetched. |
| Boot.BootRoundTripExact | Drivers/SunxiSdMmcDxe/sunxi_mmc_interface.c:121-151 | The round trip holds for all card contents exactly when not both locations are enabled. |
| Boot.BurnThenGet | Drivers/SunxiSdMmcDxe/sunxi_mmc_interface.c:57-187 | Burn and fetch on one card: with exactly one location enabled and both calls successful, the bytes come back. |
| BlockOps.ReadGuarded | Drivers/SunxiSdMmcDxe/sunxi_mmc_interface.c:263-273 | Refuses what the check flags without touching the card; otherwise a complete read returns the range, and reads inside the device complete when nothing fails. |
| BlockOps.WriteGuarded | Drivers/SunxiSdMmcDxe/sunxi_mmc_interface.c:275-285 | Refuses what the check flags without touching the card; otherwise is one write inside the request, which succeeds inside the device when nothing fails. |
| BlockOps.ZeroEraseGuarded | Drivers/SunxiSdMmcDxe/sunxi_mmc_interface.c:287-297 | Success leaves every byte of exactly the requested range zero, and is certain inside the device when nothing fails. |
| BlockOps.MassReadGuarded | Drivers/SunxiSdMmcDxe/sunxi_mmc_interface.c:311-321 | Reads the range, or the boot image on its path, and changes no contents. |
| BlockOps.MassWriteGuarded | Drivers/SunxiSdMmcDxe/sunxi_mmc_interface.c:299-309 | Writes the range, or burns the boot image on its path, and alters only allowed blocks. |
| BlockOps.WipeGuarded | Drivers/SunxiSdMmcDxe/sunxi_mmc_interface.c:324-334 | For a request that passes: 0 only if every block was covered by a completed purge, followed on newer cards by a completed sanitize; 1 only if every block outside the skip list was; -1 for refused cards and not when nothing fails; a step for every request. |
| BlockOps.EraseGuarded | Drivers/SunxiSdMmcDxe/sunxi_mmc_interface.c:336-345 | The answers of the erases carried through the guard: 0 covers the clipped request, 1 accounts for it, the secure erase accounts for it in any case, and without a failure all the purge reaches is covered; steps for every request. |
| BlockOps.TrimGuarded | Drivers/SunxiSdMmcDxe/sunxi_mmc_interface.c:347-367 | The guarded trims and the discard: 0 covers the clipped request and all the purge reaches, and is returned when nothing fails; steps for every request. |
| BlockOps.Perform | Drivers/SunxiSdMmcDxe/sunxi_mmc_interface.c:562-580 | Every entry of the operation table, for every request and whatever fails, is a step: it sends only the commands its request works out to, and card and partition change only by them; when nothing fails it achieves its purpose and a card in the user area stays there. |
| BlockOps.CheckTruncates | Drivers/SunxiSdMmcDxe/sunxi_mmc_interface.c:242-245 | The check sees of a 64-bit start what the transfer sees of it. |
| BlockOps.GuardSparesWindow | Drivers/SunxiSdMmcDxe/sunxi_mmc_interface.c:241-394 | An operation other than an item write that may alter a block of the secure window breaches it. |
| BlockOps.IssuedAlters | Drivers/SunxiSdMmcDxe/sunxi_mmc_interface.c:241-434 | What the commands of an operation alter lies in the closed form of what it may alter. |
| BlockOps.BreachExact | Drivers/SunxiSdMmcDxe/sunxi_mmc_interface.c:241-394 | For every operation but item writes, request, card and partition: some command it sends alters a block of the window if and only if the interval arithmetic on the request says so. |
| BlockOps.AltersInside | Drivers/SunxiSdMmcDxe/sunxi_mmc_interface.c:263-394 | Requests that do not wrap, escape or outrun the command argument alter no block of the device outside them. |
| BlockOps.CanMoveMeaning | Drivers/SunxiSdMmcDxe/sunxi_mmc_interface.c:189-239 | Some operation can move the partition exactly when the boot partition is enabled and the logical offset exceeds the boot image start of the device. |
| BlockOps.NoBootPathAtOffsetZero | Drivers/SunxiSdMmcDxe/sunxi_mmc_interface.c:193-197 | With the logical offset of 0 that the headers set, no operation can move the partition. |
| Runs.PerformAll | Drivers/SunxiSdMmcDxe/sunxi_mmc_interface.c:562-580 | Carrying out any sequence of table operations, with any requests, is a run of such steps, and if nothing fails every one achieves its purpose. |
| Runs.WindowIsolation | Drivers/SunxiSdMmcDxe/sunxi_mmc_interface.c:241-394 | Through every run of operations that do not breach the window, on any card, a write or erase command that alters a block of it was issued by an item write of the item that block belongs to. |
| Runs.IsolationExact | Drivers/SunxiSdMmcDxe/sunxi_mmc_interface.c:241-394 | A sequence of operations isolates the window in all its runs if and only if none of them breaches it. |
| Runs.CarefulIsolates | Drivers/SunxiSdMmcDxe/sunxi_mmc_interface.c:241-394 | Every run, on any card and whatever fails, isolates the window if its requests end within 2^32 (byte-addressed: below), erases start inside the device or do not escape, and on byte-addressed cards trims start inside the device and wipes below 2^23 after rounding. |
| Runs.BlockUntouched | Drivers/SunxiSdMmcDxe/sunxi_mmc_interface.c:562-580 | A block changes over a run only if some operation may alter it. |
| Runs.ItemUntouched | Drivers/SunxiSdMmcDxe/sunxi_mmc_interface.c:402-434 | Over a run without a breaching operation the contents of an item change only if that item is written. |
| Runs.WriteLasts | Drivers/SunxiSdMmcDxe/sunxi_mmc_interface.c:275-285 | Read after write over runs that may not alter the written blocks and cannot move the partition. |
| Runs.ItemLasts | Drivers/SunxiSdMmcDxe/sunxi_mmc_interface.c:402-503 | After a write of an item, complete or torn, and any run that does not write it, does not breach the window and cannot move the partition, a successful read returns the new value, or the old one if the write broke off in its first copy. |
| Runs.CarefulItemLasts | Drivers/SunxiSdMmcDxe/sunxi_mmc_interface.c:402-503 | The same for every run of requests that the caller can see to be safe, with no condition on breaching. |
| Runs.CleanItemLasts | Drivers/SunxiSdMmcDxe/sunxi_mmc_interface.c:57-503 | On every configuration, boot image operations included, items of the user area last through runs in which nothing fails. |
| Runs.MovedPartitionHidesItem | Drivers/SunxiSdMmcDxe/sunxi_mmc_interface.c:57-109 | On every configuration whose partition can move, an empty burn whose switch back fails makes a completely written item read differently. |
| Runs.ItemsLastExactly | Drivers/SunxiSdMmcDxe/sunxi_mmc_interface.c:57-503 | Items last through every run that does not breach the window, and likewise through every run of requests seen to be safe, if and only if the boot partition is disabled or the logical offset leaves no room for the boot image path; in particular at offset 0. |
| Runs.BlockAddressedBreach | Drivers/SunxiSdMmcDxe/sunxi_mmc_interface.c:241-394 | On a block-addressed card, of all requests that end within 2^32 exactly the supported, escaping erases breach the window, when the whole groups of the device reach into it. |
| Runs.ByteAddressedSafe | Drivers/SunxiSdMmcDxe/sunxi_mmc_interface.c:241-394 | On a byte-addressed card no request breaches it that ends below 2^32 and starts inside the device, or for a wipe has its start rounded up to less than 2^23. |
| Runs.WritesSpare | Drivers/SunxiSdMmcDxe/sunxi_mmc_interface.c:275-309 | Guarded writes that end below 2^32, on block-addressed cards also at it, never breach the window, boot image copies included. |
| Division.Div64By32 | Drivers/SunxiSdMmcDxe/mmc.c:3121-3152 | Exact quotient and remainder for every 64-bit dividend and nonzero 32-bit divisor; every intermediate value fits its word and both loops end. |
| Division.ShiftUp | Drivers/SunxiSdMmcDxe/mmc.c:3136-3139 | The shifted divisor is a power-of-two multiple that exceeds half the remainder, without overflow. |
| Division.Lldiv | Drivers/SunxiSdMmcDxe/mmc.c:3158-3181 | The wrapper equals mathematical division on the short and on the long path. |
| Clock.SetThenGet | Drivers/SunxiSdMmcDxe/sunxi_host0_2_v4p1.c:129-193 | The register selects the 24 MHz source up to 4 MHz and the doubled PLL above; the clock read back is that source over the applied divisor; between 187.5 kHz and 4 MHz it is within a quarter of the clock asked for, above 4 MHz up to the PLL and a divider of 128 within a half, and below 180 kHz it is 24 MHz undivided. |
| Clock.ClockBound | Drivers/SunxiSdMmcDxe/sunxi_host0_2_v4p1.c:137-164 | Those bounds, in numbers, from the rounding of the divider and the loss of the split. |
| Clock.DividerIsNearest | Drivers/SunxiSdMmcDxe/sunxi_host0_2_v4p1.c:145-146 | Without wrap-around the divider is source over request, rounded to the nearest. |
| Clock.DecodesExactly | Drivers/SunxiSdMmcDxe/sunxi_host0_2_v4p1.c:167-180 | The register fields decode to the source, shift and factor that were encoded. |
| Clock.DivisorBound | Drivers/SunxiSdMmcDxe/sunxi_host0_2_v4p1.c:147-164 | The divisor D from splitting div satisfies D <= div and 8 div <= 9 D up to 128. |
| DmaChain.FillChain | Drivers/SunxiSdMmcDxe/sunxi_host0_2_v4p1.c:845-895 | Fills a well-formed chain for any byte count with buffer and descriptors below 4 GiB and leaves the rest of the pool alone. |
| DmaChain.ChainTransfersBuffer | Drivers/SunxiSdMmcDxe/sunxi_host0_2_v4p1.c:868-895 | Walking the chain from descriptor 0 visits each descriptor once and in order, stops at the only last one, and moves exactly the buffer's bytes; all are owned by the engine and chained, and only the last one interrupts. |
| DmaChain.WalkFrom | Drivers/SunxiSdMmcDxe/sunxi_host0_2_v4p1.h:67-86 | From any descriptor of the chain the engine reaches the end through the following ones. |
| Mbr.WriteEbr | Drivers/SunxiSdMmcDxe/eMMCFlashIo.c:351-396 | One extended boot record, read back byte by byte, carries row i and the link to the next, except the last. |
| Mbr.WriteMaster | Drivers/SunxiSdMmcDxe/eMMCFlashIo.c:398-444 | The master record carries the last row, row 0 and the chain with its total length. |
| Mbr.WriteMbr | Drivers/SunxiSdMmcDxe/eMMCFlashIo.c:336-447 | Success leaves the master record and one extended record per inner row, and touches no other sector. |
| Mbr.MbrRoundTrip | Drivers/SunxiSdMmcDxe/eMMCFlashIo.c:336-447 | A reader from sector 0 terminates and finds exactly the inner rows, in order, with shifted absolute starts and lengths; the extended record spans the sum of the sizes it finds, the other two master records hold the last row and row 0, and the links carry the row lengths. |
| Mbr.EntryLayout | Drivers/SunxiSdMmcDxe/eMMCFlashIo.c:398-444 | Where the fields of a record lie in the sector, byte by byte. |
| Mbr.ChainReads | Drivers/SunxiSdMmcDxe/eMMCFlashIo.c:358-387 | From any record of the chain the reader finds the remaining rows. |
| Mbr.WriteThenRead | Drivers/SunxiSdMmcDxe/eMMCFlashIo.c:336-447 | Writing and then reading one disk gives the table back. |
| MemoryMap.CarveFirmware | MemoryInitPei/MemoryInitPeiLib.c:136-184 | The first HOB that holds the firmware, and only that one, is cut; if none does nothing changes. |
| MemoryMap.CarveExact | MemoryInitPei/MemoryInitPeiLib.c:143-179 | On a list without overlap the cut keeps every address with its attributes except that exactly the firmware loses PRESENT, and keeps HOBs disjoint, if and only if the HOB is not a present one that starts with the firmware at the top of memory and runs beyond it. |
| MemoryMap.DisjointCarved | MemoryInitPei/MemoryInitPeiLib.c:115-179 | On lists without overlap that end with all of system memory, as the search sees them, that case cannot arise, so the cut is always right. |
| MemoryMap.FdAbsentExactly | MemoryInitPei/MemoryInitPeiLib.c:133-179 | On any list, after the cut of the first HOB that holds the firmware no firmware address is present if and only if no earlier HOB holds the firmware or is a present one reaching into it. |
| MemoryMap.OutsideKeptExactly | MemoryInitPei/MemoryInitPeiLib.c:143-179 | On any list, presence outside the firmware is kept if and only if the HOB cut is not a present one of the wrong case, or other present HOBs cover what it spills. |
| MemoryMap.OverlapMisleads | MemoryInitPei/MemoryInitPeiLib.c:147-149 | An overlapping list on which an address outside the firmware loses PRESENT and a firmware address keeps it. |
| MemoryMap.PresentAfterCut | MemoryInitPei/MemoryInitPeiLib.c:143-179 | On any list, what is present after the cut: what other HOBs cover, and what the HOB cut covered outside the firmware unless it spills. |
| MemoryMap.MemoryPeim | MemoryInitPei/MemoryInitPeiLib.c:83-191 | From a list without system memory, the final map has all of it present but for the firmware inside, everything else as before, and no overlap; from any list the search finds the firmware in memory, which ends up absent exactly when no earlier HOB claims it. |
| MemoryMap.InitializeMemory | MemoryInitPei/MemoryInitPeim.c:91-155 | With the firmware in memory the chosen region lies in system memory, off the firmware, and is present in the final map; it is the highest such region; it fails exactly when neither side has room; with the firmware elsewhere it fails exactly when the firmware starts in memory or ends in it, so it succeeds with overlap exactly when the firmware surrounds memory, and the region is safe exactly when it fits and that is not so. |
| MemoryMap.ReplacedHas | MemoryInitPei/MemoryInitPeiLib.c:149-177 | Replacing a HOB by pieces changes the map only on that HOB, where the pieces decide. |
| FrameBuffer.VideoToVideo | Drivers/SimpleFbDxe/SimpleFbDxe.c:231-239 | The in-place loop is the composition of its overlapping line moves. |
| FrameBuffer.CopyExact | Drivers/SimpleFbDxe/SimpleFbDxe.c:231-239 | Line by line equals a simultaneous copy on every screen if and only if the copy does not move down into lines it still has to read in columns it writes. |
| FrameBuffer.IntactAtOnce | Drivers/SimpleFbDxe/SimpleFbDxe.c:231-239 | If no line read was written before, every destination line holds the original source line and nothing else changed. |
| FrameBuffer.UnsafeCopyDiffers | Drivers/SimpleFbDxe/SimpleFbDxe.c:231-239 | For every other copy there is a screen on which the loop goes wrong. |
| FrameBuffer.ScrollUp | Drivers/SimpleFbDxe/SimpleFbDxe.c:231-239 | A copy with destination at or above the source is simultaneous: pixel by pixel the destination shows the old source, and no other byte changes. |
| FrameBuffer.AtOncePixels | Drivers/SimpleFbDxe/SimpleFbDxe.c:231-239 | A simultaneous copy of lines, in the caller's pixel coordinates. |
| FrameBuffer.PlacesDiffer | Drivers/SimpleFbDxe/SimpleFbDxe.c:209-225 | Different pixels of rows that hold them have different bytes, so rectangles with disjoint rows or columns share none. |
| FrameBuffer.LinesApart | Drivers/SimpleFbDxe/SimpleFbDxe.c:23-27 | Pixel runs in different lines never meet. |
| FrameBuffer.BufferToVideo | Drivers/SimpleFbDxe/SimpleFbDxe.c:216-229 | Every channel of every pixel of the screen rectangle equals the buffer pixel at the given column and row, for Delta 0 or at least a row, and no byte outside the rectangle changes. |
| FrameBuffer.VideoToBuffer | Drivers/SimpleFbDxe/SimpleFbDxe.c:197-214 | Every channel of every pixel of the buffer rectangle equals the screen pixel, and no byte outside it changes. |
| FrameBuffer.BltRoundTrip | Drivers/SimpleFbDxe/SimpleFbDxe.c:197-229 | What a buffer showed comes back byte for byte at the same buffer row and column. |
| UsbFifo.WritePacket | Drivers/EfiUsbFnIo/usbc.c:175-221 | On the word path and on the byte path the FIFO gets exactly the data in order. |
| UsbFifo.ReadPacket | Drivers/EfiUsbFnIo/usbc.c:244-277 | Takes exactly the next bytes of the FIFO in order. |
| UsbFifo.Loopback | Drivers/EfiUsbFnIo/usbc.c:175-277 | From an empty FIFO reading inverts writing for every length and alignment. |
| UsbFifo.PacketsJoin | Drivers/EfiUsbFnIo/usb_base_sun50iw1p1.c:653-665 | The packets join to the buffer, all but the last are full, and the last is not empty. |
| UsbFifo.WriteFifo | Drivers/EfiUsbFnIo/usb_base_sun50iw1p1.c:638-669 | Terminates for every buffer and alignment with exactly those packets sent, and raises the finished flag exactly for a non-empty buffer. |
| Smbios.Measure | Drivers/SmBiosTableDxe/SunxiSmbiosDxe.c:649-665 | The sizing pass gives exactly the length of the record. |
| Smbios.BuildRecord | Drivers/SmBiosTableDxe/SunxiSmbiosDxe.c:667-683 | The writing pass stays inside the measured allocation and produces structure, strings and terminators. |
| Smbios.RecordRoundTrip | Drivers/SmBiosTableDxe/SunxiSmbiosDxe.c:649-683 | Every record begins with the structure and ends in two zero bytes and no more, and string number k of it is entry k-1. |
| Smbios.ListRoundTripExact | Drivers/SmBiosTableDxe/SunxiSmbiosDxe.c:677-683 | A reader gets the whole list back exactly when no string is empty. |

## Left out

- The polling and error recovery of the host's command routine: a command succeeds or fails.
- Erase timeouts: whether a purge completes is arbitrary, so timeout products do not matter here.
- Card start-up, identification, speed negotiation and sample-point tuning: hardware scripts.
- The boot bus condition byte (EXT_CSD[177]): setting it succeeds or fails.
- The size of the first record in `eMMCWriteMbr`: the sum of used sectors does not count entry 0.
- Transfer.Bread: the destination buffer is a returned sequence, so aliasing of buffer and driver memory is not modelled.
- SecureStore.ReadItem: the null-pointer test on the buffer is not modelled; buffers are values.
- MemoryMap.MemoryPeim: address arithmetic is unbounded, so HOBs that end above 2^64 are not modelled; MMU set-up and the memory type HOB are left out.
- MemoryMap.InitializeMemory: a failed assertion is a None result; what a release build does after one is not modelled.
- Purging.MmcTrim: one method stands for trim, discard and secure trim, which share their body.
- EfiBltVideoFill and the Blt copies of the other display driver: the first reads its colour from the screen, the second repeats these loops.
- GPT writing, the USB event queue, register access, protocol installation, ACPI and SMBIOS static tables.
- eMMCFlashIo.c partition erase and boot0/UEFI writing: straight-line calls of the block operations.
