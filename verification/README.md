# iVeia board support: a verified model

A Dafny model of the parts of the iVeia board support layer where bytes, buffers
and events are easy to lose, with proofs of what those parts promise. `dafny verify
dfyconfig.toml` checks the whole project.

- **FRU images** (`FruSpec`, `FruValidate`, `FruEdit`, `FruFix`, `FruStore`, `FruDate`,
  `FruCreate`, over `Bytes` and `Memory`). The IPMI FRU image as a value and as bytes:
  the strict validator as loops over memory and as a grammar, printing, insertion and
  removal of custom fields in place, the old length format, storage, dates. The format is
  that of sections 8, 11 and 13 of the IPMI Platform Management FRU Information Storage
  Definition.
- **Readers of the image** (`Fsbl`, `Identity`, `Mac`). The boot loader's fixed structure,
  U-Boot's identity string, and the MAC addresses derived from serial numbers.
- **ZAP** (`ZapPool`, `ZapProtocol`, `ZapSetup`). The zero-copy buffer pool as a class that
  refines two queues and a set; the user, workqueue, interrupt and flush steps around it as
  a transition system with an owner for every used buffer; the split of the memory between
  interfaces; the packet and header size settings together with the pool they resize.
- **Events** (`Events`). Delivery of interrupts to many open files, and a file under every
  interleaving of interrupts and readers.
- **Boot** (`Boot`). The boot sequencer, within one execution and across resets.

Image memory is an `array<Byte>` addressed by offsets; the edits are specified by `Splice`,
the effect of one write on the whole memory, and then by the structure the memory holds
(`Holds`, `Held`). Bytes are unsigned, as `char` is on the ARM targets. The room the source
reserves before it writes, and the bytes it reads ahead of its length check, are
preconditions on the length of the memory.

Each property that is false of the code as it stands is stated with the exact condition
under which it holds: the unchecked length byte (`FruEdit.Add`), the old-format division
(`FruFix.FixedValidIffFixable`), the stored length 0x40 (`FruStore.WriteThenRead`), dates
past 24-11-2027 (`FruDate.EncodeDecode`), a pool flush with an interrupt in flight
(`ZapProtocol.FlushKeepsInvIff`, `ZapProtocol.FlushDuringIsrFails`), a stray user write
(`ZapProtocol.StrayFreeKeepsInvIff`, `ZapProtocol.StraySendKeepsInvIff`), the TX stride
(`ZapSetup.SetupMultiplePools`), the FIFO sizes (`ZapSetup.SizesSafeIff`), a maximum packet
size that the pool refuses (`ZapSetup.PacketsFitIff`), a clear that is not atomic
(`Events.NothingLostIff`), serials that differ in case (`Mac.MacPairsDisjoint`).

Where the code and its help text disagree the model follows the code: the help text of
`ivfru create` gives a default length of 15 for the product name and 16 for the part number,
`ivfru_create` uses 16 and 15.

Foreign parts are parameters: the board storage is a byte array, the devices the boot
sequencer initialises are a function of entry and multiboot value, the FPGA chooses which of
its buffers to return and when, and the result of copying to the user is a step parameter.

## Model

| member | source | states |
|---|---|---|
| FruSpec.ValidBoardIffPrinting | recipes-bsp/shared/files/ivfru_common.c:387-486 | a board area passes the strict walk if and only if its bytes are the printing of a structure: date, four fields not starting 0xC1, zero file id, custom fields, end marker, zero padding, checksum |
| FruSpec.PrintingIsValid | recipes-bsp/shared/files/ivfru_common.c:387-486 | every printing of a well-formed board is accepted, and readers take its size from the stored length byte, in both length formats |
| FruSpec.ValidIsPrinting | recipes-bsp/shared/files/ivfru_common.c:387-486 | from an accepted board area the structure it prints is recovered |
| FruSpec.PrintingIsInjective | recipes-bsp/shared/files/ivfru_common.c:387-486 | two structures with the same bytes are equal, even across the two length formats |
| FruSpec.CutBoardIsInvalid | recipes-bsp/shared/files/ivfru_common.c:438-448 | a printed board cut off before its end marker is never accepted, because the walk has only one end marker to find |
| FruSpec.HeaderPassesIff | recipes-bsp/shared/files/ivfru_common.c:505-527 | a header passes if and only if it is the old one byte for byte, or has version 1, board offset 1 and a sum of zero modulo 256 |
| FruValidate.CalculateChecksum | recipes-bsp/shared/files/ivfru_common.c:118-130 | the loop gives the byte that makes the region sum to zero modulo 256 |
| FruValidate.SkipPredefined | recipes-bsp/shared/files/ivfru_common.c:414-423 | the walk over four fields ends where the grammar says, or reports that a marker or the remaining length stopped it |
| FruValidate.SkipCustom | recipes-bsp/shared/files/ivfru_common.c:438-448 | the custom-field walk, bounded by the remaining length, finds the end marker exactly when the grammar has one |
| FruValidate.SkipPadding | recipes-bsp/shared/files/ivfru_common.c:454-469 | the padding loop leaves more than one byte exactly when a padding byte is not zero |
| FruValidate.BiaValidate | recipes-bsp/shared/files/ivfru_common.c:387-486 | the strict walk returns the first error of the grammar for every memory, reading at most 64 bytes past the area |
| FruValidate.Validate | recipes-bsp/shared/files/ivfru_common.c:497-538 | header checks, skipped for the old format, then the board walk, with the first error reported |
| FruValidate.StrictValidIffPrinting | recipes-bsp/shared/files/ivfru_common.c:497-538 | strict validation of an image succeeds if and only if the memory starts with the printing of a well-formed image |
| FruValidate.HeldImageIsUnique | recipes-bsp/shared/files/ivfru_common.c:497-538 | that image is unique |
| FruEdit.FirstCustom | recipes-bsp/shared/files/ivfru_common.c:1073-1077 | skipping five fields of a valid board reaches the first custom field or the end marker |
| FruEdit.GoToCustom | recipes-bsp/shared/files/ivfru_common.c:1079-1083 | the index walk stops at that custom field, or at the marker with index left over |
| FruEdit.FindEndAddress | recipes-bsp/shared/files/ivfru_common.c:1085-1089 | the end walk stops one past the end marker |
| Memory.ShiftUp | recipes-bsp/shared/files/ivfru_common.c:1117-1122 | the backward byte loop moves the tail up by the field length and changes nothing else |
| Memory.ShiftDown | recipes-bsp/shared/files/ivfru_common.c:1209-1211 | the overlapping copy closes the gap and changes nothing else |
| FruEdit.FixedUpIsPrinting | recipes-bsp/shared/files/ivfru_common.c:1127-1132 | padding, length byte and checksum turn a marked board into the printing of the structure with minimal padding |
| FruEdit.InsertInPlace | recipes-bsp/shared/files/ivfru_common.c:1099-1132 | after the shift, copy and fix-up the bytes are the printing of the board with the field inserted at its index |
| FruEdit.RemoveInPlace | recipes-bsp/shared/files/ivfru_common.c:1201-1222 | after the copy and fix-up the bytes are the printing of the board without the field |
| FruEdit.Add | recipes-bsp/shared/files/ivfru_common.c:1038-1145 | each return code exactly when the source gives it, memory unchanged on error; on success the memory is the old image with a field of type 3 put at its index, after all others if the index is negative or past the end, and everything else the same with minimal padding, strictly valid if and only if the new board is at most 2040 bytes |
| FruEdit.Remove | recipes-bsp/shared/files/ivfru_common.c:1153-1234 | each return code exactly when the source gives it; on success the memory holds the strictly valid image whose custom list is the old one without that position, everything else the same with minimal padding |
| FruEdit.EditedValidIffFits | recipes-bsp/shared/files/ivfru_common.c:1127-1132 | the unchecked one-byte length: an edited board is valid if and only if it fits, whatever it contains |
| FruEdit.RemoveUndoesAdd | recipes-bsp/shared/files/ivfru_common.c:1185-1222 | removing at the insertion position gives the old fields with minimal padding, the very same structure if and only if the padding was minimal |
| FruEdit.AddThenRemove | recipes-bsp/shared/files/ivfru_common.c:1038-1234 | the same on memory: byte for byte the old image when its padding was minimal, otherwise the same fields canonically padded |
| FruEdit.RunEdits | recipes-bsp/shared/files/ivfru_common.c:1038-1234 | over any run of adds and removes, refused ones included, the image ends up strictly valid if and only if every list on the way fits 2040 bytes (after one that does not, all edits are refused); its custom list is then the list edits applied in order, and header, date and predefined fields never change |
| FruFix.Fix | recipes-bsp/shared/files/ivfru_common.c:839-876 | only an old header is accepted, only four bytes are written, the header becomes the default one, so that a second fix is refused |
| FruFix.FixedValidIffFixable | recipes-bsp/shared/files/ivfru_common.c:855-864 | a strictly valid old image becomes strictly valid with the same fields if and only if its byte length is a multiple of 8, or there is enough padding to drop and the old checksum byte is (length/8 - length) modulo 256 |
| FruFix.UnfixableBoard | recipes-bsp/shared/files/ivfru_common.c:855-864 | a well-formed old board of 13 bytes that no checksum byte makes fixable |
| FruStore.Write | recipes-bsp/shared/files/ivfru_common.c:698-732 | old or invalid images never reach storage; otherwise exactly the image bytes do |
| FruStore.Read | recipes-bsp/shared/files/ivfru_common.c:618-690 | the bytes read are those stored, as many as the length byte means to the reader |
| FruStore.WriteThenRead | recipes-bsp/shared/files/ivfru_common.c:618-732 | reading back returns the written image if and only if the stored length is not 0x40, which comes back as 64 board bytes |
| FruDate.DateToTime | recipes-bsp/shared/files/ivfru_common.c:174-215 | the 24-bit value is 1440 times the day number modulo 2^24 despite 32-bit wrap-around, and is refused exactly when that is zero or the year is before 1996 |
| FruDate.TimeToDate | recipes-bsp/shared/files/ivfru_common.c:137-167 | the month walk gives the valid date whose day number is the minutes divided by 1440 |
| FruDate.DayNumberInjective | recipes-bsp/shared/files/ivfru_common.c:137-215 | valid dates with the same day number are the same date |
| FruDate.DayNumberIs | recipes-bsp/shared/files/ivfru_common.c:137-215 | the day number that both walks compute is that of the Gregorian calendar in closed form, with no walk over years or months |
| FruDate.EncodeDecode | recipes-bsp/shared/files/ivfru_common.c:137-215 | every valid date that encodes decodes to the day of the wrapped minutes, and to itself if and only if it is at most 11650 days after 1996-01-01 |
| FruDate.DateTextIs | recipes-bsp/shared/files/ivfru_common.c:258-309 | a text of digits, dash, digits, dash, digits is day, month and year in that order, whatever follows the year |
| FruDate.KnownDates | recipes-bsp/shared/files/ivfru_common.c:137-309 | four dates as text with their day numbers, a leap day and the last day that comes back among them |
| FruDate.KnownBytes | recipes-bsp/shared/files/ivfru_common.c:200-215 | and the three bytes stored for each |
| FruDate.ParseDate | recipes-bsp/shared/files/ivfru_common.c:258-309 | accepts exactly digit runs separated by two dashes that form a valid date from 1996 on, leap years included |
| FruCreate.CheckLengths | recipes-bsp/shared/files/ivfru_common.c:949-961 | refused exactly when a string is longer than its given field length |
| FruCreate.FormatTexts | recipes-bsp/shared/files/ivfru_common.c:998-1012 | the four blank-padded fields are written one after the other, refused exactly for lengths 1 and over 63 |
| FruCreate.XCreate | recipes-bsp/shared/files/ivfru_common.c:895-1028 | succeeds exactly for a valid date and encodable lengths; the memory then holds the strictly valid image of the blank-padded strings (a date that does not encode leaves the old date bytes) |
| FruCreate.Create | recipes-bsp/shared/files/ivfru_common.c:884-887 | succeeds exactly for a valid date and strings within 10, 16, 10 and 15 bytes, with a 72-byte strictly valid image |
| FruCreate.CreateThenDate | recipes-bsp/shared/files/ivfru_common.c:895-1028 | the date bytes of the created image decode to the date given if and only if it is at most 24-11-2027; a day number that wraps to zero leaves the bytes that were there |
| Fsbl.ValidateIpmi | recipes-bsp/fsbl-firmware/files/iv_z8_sequence_boot.c:50-86 | zero exactly when both areas sum to zero modulo 256 and the board version is 1 |
| Fsbl.CreatedIsStruct | recipes-bsp/shared/files/iveia-ipmi.h:63-84 | every image of ivfru_create is the boot loader's fixed structure, field by field |
| Fsbl.StructPassesValidation | recipes-bsp/fsbl-firmware/files/iv_z8_sequence_boot.c:50-86 | such a structure passes validate_ipmi |
| Fsbl.TextsAreStored | recipes-bsp/shared/files/iveia-ipmi.h:63-84 | manufacturer, product, serial and part number lie blank-padded at offsets 15, 26, 43 and 54 of the structure; a missing manufacturer is "iVeia" |
| Fsbl.OrdinalIsReadBack | recipes-bsp/fsbl-firmware/files/iv_z8_sequence_boot.c:133-143 | get_pn_ord returns the number written after the first dash of the part number |
| Fsbl.NoDashNoOrdinal | recipes-bsp/fsbl-firmware/files/iv_z8_sequence_boot.c:133-143 | without a dash the ordinal is -1 and an entry by part number is not tried |
| Fsbl.CreateThenBoot | recipes-bsp/fsbl-firmware/files/iv_z8_sequence_boot.c:133-198 | create followed by the boot loader's read: validation passes, the ordinal is the one written, and a boot-by-part-number entry is tried with it only |
| Identity.PredefinedFields | recipes-bsp/shared/files/ivfru_common.c:578-610 | on every valid image of either format the three offsets and lengths delimit the product, serial and part number data |
| Identity.CopyIpmiField | recipes-bsp/u-boot/files/iveia-init.c:148-180 | the buffer loops leave the field up to its first NUL or trailing spaces, underscore as dash, space as underscore, comma as slash, all else unchanged |
| Identity.CheckString | recipes-bsp/u-boot/files/iveia-init.c:249-263 | the loop converts spaces, counts the commas, and finds a nonprintable character exactly when there is one |
| Identity.Environment.SetIpmiEnv | recipes-bsp/u-boot/files/iveia-init.c:209-295 | the variable gets the forced string if there is one, else the joined fields, replaced by the default unless printable with exactly two commas; the ordinal variable gets the text between the first two dashes of the part number (in the first 63 characters), and is left alone if there is no dash; no other variable changes but for spaces in the forced one |
| Identity.JoinedSplits | recipes-bsp/u-boot/files/iveia-init.c:63-110 | splitting a joined string of comma-free parts returns the parts |
| Identity.PnSplits | recipes-bsp/u-boot/files/iveia-init.c:84-104 | for a part number of any number of dash-free texts, ordinal, variant and revision are its second, third and fourth text, or missing where the dashes run out |
| Identity.CreateThenScan | recipes-bsp/u-boot/files/iveia-init.c:418-449 | create, write to storage, read back, validate, scan: for printable strings and no forced value the variable is part number, serial and product, stripped and translated, joined by two commas; splitting it returns each; the ordinal variable is the ordinal of the part number |
| Identity.CreateThenScanAndBoot | recipes-bsp/fsbl-firmware/files/iv_z8_sequence_boot.c:133-143 | on the same image U-Boot stores the text of a decimal ordinal and the boot loader reads its value |
| Mac.SnToMac | recipes-bsp/u-boot/files/iveia-init.c:304-327 | nonzero exactly for five map characters of value below 2^23, and then the OUI followed by twice the value |
| Mac.MacPairsDisjoint | recipes-bsp/u-boot/files/iveia-init.c:304-327 | accepted serials give the same address if and only if they differ only in case, otherwise disjoint pairs, all under the OUI |
| Mac.KnownSerials | recipes-bsp/u-boot/files/iveia-init.c:329-343 | all eight checks the source itself makes |
| Mac.MacTable | recipes-bsp/u-boot/files/iveia-init.c:345-391 | the whole table: on Zynq the pair of the main board, else of the I/O board, on ports 0 and 1; on ZynqMP a single pair on ports 2 and 3, both boards main board first; the nonzero entries are distinct if and only if not both contribute the same serial |
| ZapPool.Pool.IsValidPbuf | recipes-kernel/iv-zap/src/pool.c:150-175 | accepts exactly the packet start addresses |
| ZapPool.Pool.GetbufTry | recipes-kernel/iv-zap/src/pool.c:359-379 | takes the head of the free queue, as the abstract pool does, or reports it empty |
| ZapPool.Pool.Freebuf | recipes-kernel/iv-zap/src/pool.c:441-461 | refused exactly for addresses not in use with nothing changed, otherwise the buffer leaves the used set and joins the tail of the free queue |
| ZapPool.Pool.Enqbuf | recipes-kernel/iv-zap/src/pool.c:464-487 | refused exactly for addresses not in use, otherwise the packet joins the tail of the fifo with its lengths and flags |
| ZapPool.Pool.DeqbufTry | recipes-kernel/iv-zap/src/pool.c:490-512 | takes the head packet of the fifo with the lengths and flags it was enqueued with |
| ZapPool.Pool.Resize | recipes-kernel/iv-zap/src/pool.c:261-327 | refused exactly when the packet size exceeds the pool size minus a page, on unsigned longs; otherwise as many packets as fit up to the maximum, at least one in a pool of a page or more, all free |
| ZapPool.Pool.Flush | recipes-kernel/iv-zap/src/pool.c:616-622 | keeps the packet size; on a pool that was laid out it never fails, keeps the layout, and frees every buffer |
| ZapPool.Pool.Layout | recipes-kernel/iv-zap/src/pool.c:41-50 | packets are disjoint and inside the region, and the address of each leads back to its entry despite the 32-bit cast |
| ZapPool.Pool.StateIsPartition | recipes-kernel/iv-zap/src/pool.c:56-147 | in every valid pool each packet address is in exactly one of free queue, fifo and used set |
| ZapPool.ListsPartition | recipes-kernel/iv-zap/src/pool.c:56-147 | the three lists together hold every entry exactly once and agree with pcur_list |
| ZapProtocol.StepKeepsInv | recipes-kernel/iv-zap/src/dma_zynq.c:205-396 | every user, workqueue, interrupt and stop step keeps the ownership invariant, a flush when the interrupt handler is idle |
| ZapProtocol.Safety | recipes-kernel/iv-zap/src/dma_zynq.c:205-550 | over every run of those steps user, FPGA and kernel hands are disjoint and together are the used buffers, and BUG_ON and refused frees are unreachable |
| ZapProtocol.InOrder | recipes-kernel/iv-zap/src/dma_zynq.c:205-550 | over every such run, told from the steps alone: the packets the FPGA or the user gave since the last flush, with lengths and flags, are those taken out followed by those in the fifo; the order of the layout followed by the buffers freed is the buffers handed out followed by those still free |
| ZapProtocol.FlushKeepsInvIff | recipes-kernel/iv-zap/src/dma_zynq.c:520-550 | a flush keeps the invariant if and only if no interrupt handler is between its register access and its pool operation |
| ZapProtocol.FlushDuringIsrFails | recipes-kernel/iv-zap/src/dma_zynq.c:308-348 | over every run after a flush in that window, the pending pool operation of the handler (enqueue on RX, free on TX) is refused if and only if nobody has been given the buffer again; otherwise the buffer is silently both back in the pool and with its new holder |
| ZapProtocol.InFlightIsReachable | recipes-kernel/iv-zap/src/dma_zynq.c:520-550 | the window is reachable after the workqueue has been flushed |
| ZapProtocol.SilentDoubleOwnership | recipes-kernel/iv-zap/src/dma_zynq.c:308-348 | so is the silent case: flush, restart, the workqueue takes the buffer, and the handler enqueues it without any error |
| ZapProtocol.StrayFreeKeepsInvIff | recipes-kernel/iv-zap/src/zap.c:484-522 | a free of an offset the user does not hold is harmless if and only if the buffer is not with the FPGA or the kernel |
| ZapProtocol.StraySendKeepsInvIff | recipes-kernel/iv-zap/src/zap.c:491-510 | the same for a send |
| ZapSetup.SetupMultiplePools | recipes-kernel/iv-zap/src/zap.c:154-180 | each pool starts at the page boundary at or after its equal share of the RX region; the RX pools are page-aligned, consecutive, cover their region and are less than a page short of a share; the TX pools, placed with the RX stride, cover theirs if and only if the last one starts inside the TX region |
| ZapSetup.SmallTxRegionFails | recipes-kernel/iv-zap/src/zap.c:166-166 | a region pair where that fails: with a 64 KiB RX region and two pools, no sizes make pools at those starts tile an 8 KiB TX region |
| ZapSetup.TilesAreDisjoint | recipes-kernel/iv-zap/src/zap.c:154-180 | such pools are pairwise disjoint |
| ZapSetup.Settings.Do | recipes-kernel/iv-zap/src/zap.c:589-773 | open and the size, header and jumbo settings with their pool: EFBIG and EINVAL exactly as the source gives them, with the wrapping subtraction and nothing changed; ENOMEM when the pool refuses the size, with the new maximum already stored; open ignores that refusal |
| ZapSetup.PacketsFitIff | recipes-kernel/iv-zap/src/zap.c:289-337 | over every run of opens and settings that begins with an open, the maximum equals the packet size of the pool, and every packet length zap_write accepts fits a buffer, if and only if the size last asked for passes the test of pool_resize (leaves a page of the pool) |
| ZapSetup.PacketSizeFollows | recipes-kernel/iv-zap/src/zap.c:660-688 | after an open the maximum is the size last asked for, and the pool keeps a packet size that fits its region |
| ZapSetup.RefusedResizeStrands | recipes-kernel/iv-zap/src/zap.c:611-618 | a setting that returns ENOMEM and leaves a maximum of 4196 over buffers of 4096 bytes |
| ZapSetup.SizesStayConsistent | recipes-kernel/iv-zap/src/zap.c:660-726 | over every run without jumbo packets and with OOB FIFO at most the data FIFO, header at most payload, the rest within the data FIFO, header enabled exactly when nonzero |
| ZapSetup.SizesSafeIff | recipes-kernel/iv-zap/src/zap.c:319-726 | that holds over all such runs if and only if the OOB FIFO is at most the data FIFO or the data FIFO is at most one byte |
| Events.EventsFile.Read | recipes-kernel/iv-events/src/events.c:343-348 | returns the masked pending bits and clears exactly those |
| Events.WakeUp | recipes-kernel/iv-events/src/events.c:141-153 | every file gets the bit, and exactly the files whose request then holds are woken |
| Events.ForEachWakeUp | recipes-kernel/iv-events/src/events.c:159-177 | every file gets bits 0 to 30, and the files woken are exactly those whose any/all request holds at the end |
| Events.NoEventIsLost | recipes-kernel/iv-events/src/events.c:328-348 | over every interleaving of interrupts, reads and writes with atomic clears: an event that arrived at one step and was returned by no read since is pending, in the word of the read under way, or was in the word of a read since then whose copy failed |
| Events.NothingLostIff | recipes-kernel/iv-events/src/events.c:343-348 | with clears that interrupts can divide: over every run, nothing is lost at any time if and only if all that arrives between the halves of a clear is in the word being returned |
| Events.ReadReturnsRequested | recipes-kernel/iv-events/src/events.c:328-348 | a read returns exactly the pending events of the mask last written, hence every event asked for that arrived before it and was in no read since |
| Events.NoEventIsInvented | recipes-kernel/iv-events/src/events.c:343-348 | over every run, divided clears included, no event is returned more often than it arrived |
| Events.OnlyReturnedBitsAreCleared | recipes-kernel/iv-events/src/events.c:343-348 | a step never clears a bit outside the word being returned |
| Events.StoreLosesNothingIff | recipes-kernel/iv-events/src/events.c:343-348 | a step loses something if and only if it is the write half of a clear and a bit that arrived since the read half is not in the word being returned |
| Events.InterruptedClearLoses | recipes-kernel/iv-events/src/events.c:343-348 | a run of six steps from open in which an interrupt between the two halves loses its event |
| Boot.Attempts | recipes-bsp/fsbl-firmware/files/iv_z8_sequence_boot.c:177-198 | at most 30 attempts, at most one by part number |
| Boot.TriesAre | recipes-bsp/fsbl-firmware/files/iv_z8_sequence_boot.c:145-198 | the tries are exactly the values 0 up to the attempts or 30, or the ordinal alone, of every entry, by entry and then by value |
| Boot.Registers.TryEntry | recipes-bsp/fsbl-firmware/files/iv_z8_sequence_boot.c:177-267 | resets into the first successful attempt at the entry, or none succeeded |
| Boot.Registers.SequenceBoot | recipes-bsp/fsbl-firmware/files/iv_z8_sequence_boot.c:145-273 | resets into the first try in list order that succeeds, with its multiboot value, its mode in bits 12 to 15 and USE_ALT; if none does MULTI_BOOT is 0; nothing happens in JTAG mode or after a sequencer reset |
| Boot.Execute | recipes-bsp/fsbl-firmware/files/iv_z8_sequence_boot.c:145-273 | every execution of the sequencer is one of the register relation that the next row is about |
| Boot.AtMostOneReset | recipes-bsp/fsbl-firmware/files/iv_z8_sequence_boot.c:158-167 | over any run of boot loader executions between power-ups at most one ends in a sequencer reset |

## Left out

- FruCreate.XCreate: predefined fields of length zero are excluded, because the source then passes type and length swapped and reads past the empty string; missing (NULL) strings other than the manufacturer are not modelled.
- FruDate.ParseDate: digit runs that overflow a C int are not modelled; numbers are unbounded.
- Fsbl.OrdinalIsReadBack: the overflow of atoi for ordinals over 31 bits is not modelled.
- FruEdit.Add: the field length is that of the data, so a negative length argument is not modelled.
- FruFix.Fix: an old image whose length byte is 0 is excluded, because the source then computes the checksum of a negative size.
- FruStore.Read: a stored length byte of 0 is excluded, because the source then reads a negative size.
- Fsbl.CreateThenBoot: the overflow of atoi for ordinals over 31 bits is not modelled.
- Memory.ShiftDown: C leaves memcpy between overlapping regions undefined; the model is the forward byte copy.
- ZapPool.Pool.Resize: allocation failure of the entry table is not modelled; the pool is smaller than 4 GiB; pools less than 64 bytes short of a page are excluded, because the rounding of the packet size can then wrap to a division by zero. A packet size of zero is accepted as in the source, but get, free, enqueue and dequeue on such a pool, where the source divides by zero, and on a pool whose open was refused, are not modelled.
- ZapPool.Pool.IsValidPbuf: the slot past the entry table, which the source reads for one index, never matches an address.
- ZapSetup.Settings.Do: an interrupted semaphore wait (ERESTARTSYS), the device-in-use check (EBUSY) and the interface number check of open are not modelled.
- ZapSetup.PacketsFitIff: a packet size left behind by settings made before the first open for writing must itself fit the region.
- Identity.Environment.SetIpmiEnv: the joined string must fit its 64-byte buffer, which every image of ivfru_create does; U-Boot's env_set, which is not part of the repository, is taken to remove a variable that is set to an empty value.
- ZapProtocol.Safety: the FPGA returns only addresses it was handed, and the user writes only offsets it got since the last flush; interrupt masking is not used, so interrupts may also come while masked.
- Events.NoEventIsLost: a 32-bit word is the set of its bit numbers.
- Validation that carries on after errors (`ignore` set) and ivfru_display: only the display front end uses them.
- The wait loops of the blocking pool calls: only the locked region after the wait is a step.
- Writing the MAC bytes to environment variables that are not yet set.
- Length encoding of the ZAP size register, high-water marks and DMA counters.
- Platform I/O (I2C, QSPI, GPIO, device tree), command front ends, printing, mmap, probe and remove, debugfs.
- Other FRU areas, which the code never edits, and the framebuffer, PWM, passthrough and other small drivers.
- Board-specific FSBL register tables, recipes, installers and device trees.
