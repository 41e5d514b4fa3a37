# Verified model of a Nios V/m board support package

This project models the parts of the board support package under `soft/bsp` whose
behaviour is hard to see by reading one function, and proves what they are for.
Check it with `dafny verify dfyconfig.toml`.

## What is modelled

**JTAG UART fast driver** (`Ring.dfy`, `JtagUart.dfy`). Two circular buffers are shared,
without locks, by foreground `read`/`write` and an interrupt routine, with the two
interrupt-enable bits as the wake-up protocol. Class `Driver` holds the driver's state
record, class `Device` the UART. Before every access of the foreground to shared memory,
and before it sets an enable bit, the method `Interrupts` runs any number of interrupt and
timer routines, and before every register access the host may send, collect and touch the
activity bit; contracts therefore hold for all interleavings. The ghost histories `received`, `delivered`,
`accepted` and `Device.stored` give the two byte streams; `readDebt` and `kickDebt` mark
the windows in which a reader owes the receive enable and a writer the transmit enable;
`Device.controls` and `Device.datas` log every value the two registers were read with, and
`checks` every value of the inactivity count a waiting call looked at.
What is assumed of the hardware: a DATA read that is not valid reports nothing available;
a pending read interrupt implies that it is enabled and a byte waits; a pending write
interrupt implies that it is enabled and the transmit FIFO has room.

**Device Feature List walker** (`DflFormat.dfy`, `DflTree.dfy`, `DflWalker.dfy`,
`DflForest.dfy`, `DflImage.dfy`). Memory is a function from addresses to 64-bit words. A
`Level` is the finite unfolding of a list, which exists exactly for the addresses from
which the walk ends. `Walker` has the program's globals and its recursion, once to count and once to
collect. `DflForest` says what it means that a memory encodes a forest of features, with
any next offsets, relative or absolute branch targets, and any values of the bits the walk
does not look at; it shows that walking it gives the forest back, and that every walk that
ends is of such a forest. `DflImage` has packed images of forests and memories that hold
them.

**Alarms and the machine timer** (`AlarmList.dfy`, `AlarmTimer.dfy`). The intrusive ring of
alarms is on the heap; the walk of `alt_tick` saves the next node and calls back code that
starts and stops other alarms. The 64-bit timer registers of section 3.2.1 of the RISC-V
Privileged Architecture are read and written as 32-bit words while machine time runs on.
Machine time is assumed monotone and below 2^64 less one tick period; the ghost log
`instants` holds machine time and compare value after every step of the hardware. The ghost
sequences `walked`, `called` and `answers` record what the walk of the last tick did, and
the ghost fields `wanted` and `stops` of an alarm whether it should be listed and how often
the application has stopped it.

**I2C master** (`I2c.dfy`, `I2cInterrupts.dfy`, `I2cClock.dfy`). Status bits read as
anything at any time. Assumed of the controller: while enabled it delivers at most one
byte per read command, while disabled none, and disabling it empties its FIFOs. The
address byte is that of section 3.1.10 of NXP UM10204. A ghost log `looks` has everything
the status registers ever showed, so that each status returned is tied to what was read;
the logs `sent`, `fetched` and `rounds` have the calls of the transfer functions, each with
the place in `looks` where it began.

**Printers** (`Numerals.dfy`, `Printers.dfy`, `Formats.dfy`), **time of day** (`TimeOfDay.dfy`) and the
**file descriptor table** (`FileTable.dfy`), from reset and from the redirection of the
standard descriptors that precedes every application.

## Where the code differs from what it is meant to do

- A DFH with two branch parameters gets its second sub-list labelled with the wrong parent,
  because the parent pushed is the global index, which the first sub-list has advanced
  (`soft/bsp/HAL/src/intel_fpga_api_cmn_dfl.c:439`). The walk labels every entry with its
  branching DFH if and only if no DFH has two branch parameters
  (`DflTree.CollectsFlattening`, `DflForest.WalkInvertsEncoding`); `DflImage.WrongParentHappens`
  is a memory with the wrong label.
- A list of k >= 1 blocks ended by a null block records k + 1 parameters, the last zero
  (`soft/bsp/HAL/src/intel_fpga_api_cmn_dfl.c:653`). `DflForest.ExtraParameter` is the exact
  condition and `DflImage.ExtraParameterHappens` a memory for it.
- `alt_fd_lock` stops its scan short of the highest descriptor, so it can lock a device the
  highest descriptor shares. `FileTable.TwoOnALockedDevice` and `FileTable.LockOfStdin` are such runs;
  `FileTable.RunExclusive` says exactly which runs keep use exclusive, and
  `FileTable.InclusiveFromReset` that with the bound `open` uses every run would.
- A callback that stops the alarm next in the list makes `alt_tick` loop for ever, because the
  walk has saved that node (`AlarmTimer.Clock.StopSaved`); the exact condition is
  `AlarmTimer.Clock.SavedNodeLeadsBack`. Starting an alarm that is already listed breaks the
  ring in the same way (`AlarmTimer.Clock.Start`, `AlarmList.Insert`).
- `master_tx_rx` with nothing to receive returns with the controller still enabled exactly when
  its transmission succeeded, and reports success when it timed out (`I2c.Master.MasterTxRx`).
- The I2C clock counts are 16 bits wide and offset by 60: `I2cClock.CountsFit` says exactly
  when they survive the registers, and `I2cClock.TooSlowAClock` exactly when computing the
  speed back from a fresh configuration divides by zero; `I2cClock.SlowOverflow`,
  `I2cClock.FastUnderflow` and `I2cClock.DividesByZero` are examples.
- `settimeofday` promises that the clock reads on from the time set. `TimeOfDay.KeepsTimeIff`
  says that this holds exactly at tick rates that divide a million; `TimeOfDay.FirstSecond`
  and `TimeOfDay.LastTick` are where it fails below and above a million, and
  `TimeOfDay.RunsBackwards` shows three ticks a second running backwards and being clamped.

## Model

| member | source | states |
|---|---|---|
| Ring.EmptyAndFull | soft/bsp/drivers/src/altera_avalon_jtag_uart_init.c:138-140 | equal indices mean an empty ring and `in + 1 == out` means BUF_LEN - 1 unread bytes, both as if-and-only-if on the byte histories |
| Ring.FreeRunFits | soft/bsp/drivers/src/altera_avalon_jtag_uart_write.c:102-113 | the run the writer computes ends before the wrap and keeps one slot free, and is empty only when the ring is full |
| Ring.FilledRunFits | soft/bsp/drivers/src/altera_avalon_jtag_uart_read.c:118-127 | the run the reader computes lies inside the unread bytes and before the wrap, and is empty only when nothing is unread |
| Ring.Used | soft/bsp/drivers/src/altera_avalon_jtag_uart_read.c:121-124 | the two wrapped indices determine the occupancy |
| Ring.Publish | soft/bsp/drivers/src/altera_avalon_jtag_uart_write.c:118-122 | filling free slots and moving the write index appends those bytes to the stream and disturbs none queued |
| Ring.Take | soft/bsp/drivers/src/altera_avalon_jtag_uart_read.c:132-136 | the slots a reader copies hold the oldest unread bytes in order, and moving the read index removes exactly those |
| JtagUart.Driver.constructor | soft/bsp/drivers/src/altera_avalon_jtag_uart_init.c:66-100 | all invariants hold at start, receive interrupts on, no host timeout if the alarm was refused |
| JtagUart.Driver.StoreByte | soft/bsp/drivers/src/altera_avalon_jtag_uart_init.c:150-151 | one received byte joins the receive stream at its end |
| JtagUart.Driver.SendByte | soft/bsp/drivers/src/altera_avalon_jtag_uart_init.c:177-179 | the oldest queued byte, and no other, reaches the device |
| JtagUart.Driver.Unload | soft/bsp/drivers/src/altera_avalon_jtag_uart_init.c:131-155 | the loop ends only on a full ring or on a read of DATA that found nothing; the result is what the last read said about more, and every byte popped is in the receive stream |
| JtagUart.Driver.IrqReceive | soft/bsp/drivers/src/altera_avalon_jtag_uart_init.c:126-168 | keeps streams and wake-up protocol; the receive enable goes off exactly when the last read announced more, and then the ring is full; the work measure strictly falls |
| JtagUart.Driver.IrqTransmit | soft/bsp/drivers/src/altera_avalon_jtag_uart_init.c:170-202 | sends the lesser of the room reported and the bytes queued; the transmit enable goes off exactly when room was left over, so only with an empty ring; the work measure strictly falls |
| JtagUart.Driver.Irq | soft/bsp/drivers/src/altera_avalon_jtag_uart_init.c:106-204 | returns only on a read of CONTROL that shows no interrupt, and if the first read showed one the work (free slots + queued bytes + set enables) has fallen: bytes moved, or an enable went off on a full or an empty ring; it ends for every host behaviour, keeps every invariant and touches no foreground index or byte |
| JtagUart.Driver.Serve | soft/bsp/drivers/src/altera_avalon_jtag_uart_init.c:126-202 | the interrupts that one read of CONTROL showed are served: the work strictly falls and every invariant holds |
| JtagUart.Driver.Timeout | soft/bsp/drivers/src/altera_avalon_jtag_uart_init.c:210-232 | by the activity bit that was read the inactivity count resets and the bit is cleared, or it rises by one or stays at its limit; the enable bits survive |
| JtagUart.Driver.CopyIn | soft/bsp/drivers/src/altera_avalon_jtag_uart_write.c:118-118 | bytes copied before they are published are still there after interrupts at every byte |
| JtagUart.Driver.PublishRun | soft/bsp/drivers/src/altera_avalon_jtag_uart_write.c:119-122 | the copied run joins the transmit stream at one store, leaving the kick owed |
| JtagUart.Driver.Enable | soft/bsp/drivers/src/altera_avalon_jtag_uart_write.c:132-135 | setting an enable bit with interrupts off keeps the mirror equal to the device and settles the debt |
| JtagUart.Driver.SampleSpace | soft/bsp/drivers/src/altera_avalon_jtag_uart_write.c:101-113 | a stale read index still gives a run that is free, and zero only if the ring was full when sampled |
| JtagUart.Driver.Fill | soft/bsp/drivers/src/altera_avalon_jtag_uart_write.c:99-123 | queues exactly a prefix of the caller's bytes, and bytes left over mean the ring was full at the index last seen |
| JtagUart.Driver.FillAndKick | soft/bsp/drivers/src/altera_avalon_jtag_uart_write.c:98-135 | leaves no kick owed: a non-empty ring implies the transmit enable is on |
| JtagUart.Driver.WaitForRoom | soft/bsp/drivers/src/altera_avalon_jtag_uart_write.c:179-180 | a writer still spinning has a full ring and the transmit interrupt on |
| JtagUart.Driver.Write | soft/bsp/drivers/src/altera_avalon_jtag_uart_write.c:79-211 | a result r means exactly the first r bytes joined the stream, under every interleaving; which error is returned and when: every call, whatever it returns, falls short of its count only after the ring was full, and one that is stuck has looked at the host as often as it waited without giving it up; no debt is left |
| JtagUart.Perform | soft/bsp/drivers/src/altera_avalon_jtag_uart_write.c:79-211 | one call of a run: a write queues all its bytes or leaves the ring full, a read gives all that was unread or fills its space |
| JtagUart.Driver.CopyOut | soft/bsp/drivers/src/altera_avalon_jtag_uart_read.c:132-132 | the caller gets the oldest unread bytes although interrupts strike at every byte |
| JtagUart.Driver.ReleaseRun | soft/bsp/drivers/src/altera_avalon_jtag_uart_read.c:133-136 | moving the read index delivers exactly the copied run |
| JtagUart.Driver.Drain | soft/bsp/drivers/src/altera_avalon_jtag_uart_read.c:116-138 | the buffer receives the next bytes of the stream and nothing beyond them is written; room left over means all that was unread at the call has been taken |
| JtagUart.Driver.WaitForData | soft/bsp/drivers/src/altera_avalon_jtag_uart_read.c:169-170 | a reader still spinning has an empty ring and the receive interrupt on |
| JtagUart.Driver.Gather | soft/bsp/drivers/src/altera_avalon_jtag_uart_read.c:111-175 | room left over means that all that was unread at the call has been taken; nothing gathered by a blocking call that is not stuck means the host counted as gone at some check during the call |
| JtagUart.Driver.Read | soft/bsp/drivers/src/altera_avalon_jtag_uart_read.c:96-199 | a result r means the buffer starts with the next r bytes of the stream, each delivered once, under every interleaving; every call, whatever it returns, falls short of its space only when nothing that was there at the call is left unread; a reader that is stuck has the receive interrupt on or a full ring to read, and has looked at the host as often as it waited without giving it up; an I/O error means the host was given up on during the call |
| JtagUart.Driver.Close | soft/bsp/drivers/src/altera_avalon_jtag_uart_init.c:248-261 | success means the ring drained or the host was given up on, a non-blocking refusal that bytes were queued; a call still waiting has the transmit interrupt on and has looked at the host as often as it waited without giving it up |
| JtagUart.Driver.EndToEnd | soft/bsp/drivers/src/altera_avalon_jtag_uart_init.c:118-204 | readers get a prefix of what the host sent and the host a prefix of what writers queued, with bounded bytes in flight |
| JtagUart.Session | soft/bsp/drivers/src/altera_avalon_jtag_uart_write.c:79-211 | over every run of calls, what readers were given is a prefix of what the host sent and what the host got a prefix of what writers were told they wrote, each short by less than the two buffers between |
| DflFormat.StartDecodes | soft/bsp/HAL/src/intel_fpga_api_cmn_dfl.c:273-281 | whatever the bits the walker ignores, the end-of-list bit and the next offset come back from a start word that encodes them |
| DflFormat.GroupDecodes | soft/bsp/HAL/src/intel_fpga_api_cmn_dfl.c:322-332 | whatever the bits the walker ignores, parameter flag, instance and group come back from a group word that encodes them |
| DflFormat.HeaderDecodes | soft/bsp/HAL/src/intel_fpga_api_cmn_dfl.c:342-363 | whatever the bits the walker ignores, version, id, last flag and length come back from a parameter header that encodes them |
| DflFormat.CsrDecodes | soft/bsp/HAL/src/intel_fpga_api_cmn_dfl.c:398-423 | every CSR word, relative to its DFH or absolute, gives the base address it encodes |
| DflTree.CollectsFlattening | soft/bsp/HAL/src/intel_fpga_api_cmn_dfl.c:435-473 | what the global index labels equals the preorder flattening with each entry's branching DFH if and only if no DFH has two branch parameters |
| DflTree.ParentsPrecede | soft/bsp/HAL/src/intel_fpga_api_cmn_dfl.c:439-439 | every recorded parent is -1 or smaller than the entry's own index, on any memory |
| DflTree.OneUnfolding | soft/bsp/HAL/src/intel_fpga_api_cmn_dfl.c:201-263 | a memory and an address have at most one finite unfolding |
| DflTree.MovesOn | soft/bsp/HAL/src/intel_fpga_api_cmn_dfl.c:515-532 | where the walk ends, every block with another behind it has a positive offset, so its data size does not underflow |
| DflWalker.InfoVec.Reserve | soft/bsp/HAL/src/intel_fpga_api_cmn_inf.c:95-138 | growing, shrinking and freeing keep the entries below the new size, and zero those above |
| DflWalker.InfoVec.Resize | soft/bsp/HAL/src/intel_fpga_api_cmn_inf.c:89-93 | the vector is cut or extended with zero entries to exactly the size asked for |
| DflWalker.Walker.SetParameterProperties | soft/bsp/HAL/src/intel_fpga_api_cmn_dfl.c:599-664 | one entry's parameters become the blocks of its list, in order, with their data words; no other entry changes |
| DflWalker.Walker.SetInterfaceProperties | soft/bsp/HAL/src/intel_fpga_api_cmn_dfl.c:666-679 | one zeroed entry gets base, GUID, ids, parent and parameters of its DFH; no other entry changes |
| DflWalker.Walker.HandleBranch | soft/bsp/HAL/src/intel_fpga_api_cmn_dfl.c:435-473 | the sub-list is counted or recorded whole and the parent stack is as before |
| DflWalker.Walker.ProcessParams | soft/bsp/HAL/src/intel_fpga_api_cmn_dfl.c:488-543 | every sub-list under a parameter list is counted or recorded, in order |
| DflWalker.Walker.DealWithLevel | soft/bsp/HAL/src/intel_fpga_api_cmn_dfl.c:201-263 | a level pops exactly one parent; it adds its node count, or records its entries within the vector |
| DflWalker.Walker.ScanTheNumInterfaces | soft/bsp/HAL/src/intel_fpga_api_cmn_dfl.c:182-189 | the counting pass gives the number of nodes and leaves the parent stack balanced |
| DflWalker.Walker.CollectInterfacesInfo | soft/bsp/HAL/src/intel_fpga_api_cmn_dfl.c:191-199 | the collecting pass ends at the last entry of the vector, with every entry recorded |
| DflWalker.Walker.ScanMultiInterfaces | soft/bsp/HAL/src/intel_fpga_api_cmn_dfl.c:159-180 | on any memory where the walk ends both passes agree: count == last index + 1 == vector size, and the vector holds the collected entries |
| DflForest.BranchDecodes | soft/bsp/HAL/src/intel_fpga_api_cmn_dfl.c:441-466 | every branch word, relative or absolute and with its unused bits free, leads to the children it encodes |
| DflForest.EncodingWalks | soft/bsp/HAL/src/intel_fpga_api_cmn_dfl.c:201-263 | walking any memory that encodes a forest, wherever its features lie and whatever the bits the walk ignores, ends, visits its shape, and flattens to its entries in preorder |
| DflForest.WalkIsEncoded | soft/bsp/HAL/src/intel_fpga_api_cmn_dfl.c:201-263 | conversely, wherever the walk ends the memory encodes a forest of the walk's shape |
| DflForest.ExtraParameter | soft/bsp/HAL/src/intel_fpga_api_cmn_dfl.c:612-663 | as many parameters are recorded as the list has blocks if and only if no null block follows a block; otherwise one more, zeroed |
| DflForest.WalkInvertsEncoding | soft/bsp/HAL/src/intel_fpga_api_cmn_dfl.c:435-473 | the collected entries of an encoded forest are the forest's entries, with base, GUID, ids, parameters and true parents, if and only if no feature has two branch blocks |
| DflForest.ScanEncoding | soft/bsp/HAL/src/intel_fpga_api_cmn_dfl.c:159-180 | scanning an encoded forest in place leaves its entries in the vector, under the same if-and-only-if, with every parent before its children |
| DflImage.ImageEncodes | soft/bsp/HAL/src/intel_fpga_api_cmn_dfl.c:265-363 | a memory that holds the packed image of a forest that fits its fields encodes it |
| DflImage.PackedForestsExist | soft/bsp/HAL/src/intel_fpga_api_cmn_dfl.c:201-263 | every packed forest that fits its fields and the address space is encoded by some memory |
| DflImage.WrongParent | soft/bsp/HAL/src/intel_fpga_api_cmn_dfl.c:439-439 | wherever a forest with two branches in its first feature lies, the second leaf is recorded as a child of the first leaf |
| DflImage.WrongParentHappens | soft/bsp/HAL/src/intel_fpga_api_cmn_dfl.c:439-439 | the memory of these 19 words, in which the recorded parent is 1 and the true one 0 |
| DflImage.ExtraParameterHappens | soft/bsp/HAL/src/intel_fpga_api_cmn_dfl.c:653-653 | the memory of these 8 words, a list of one block and a null block, and its one recorded entry field by field, with two parameters |
| AlarmList.Insert | soft/bsp/HAL/inc/sys/alt_llist.h:90-98 | a well-formed ring with the entry right behind the head; on an entry already listed, links that never lead back to the head |
| AlarmList.Loops | soft/bsp/HAL/inc/sys/alt_llist.h:90-98 | links that go round behind the head never meet it again, however many are followed |
| AlarmList.Remove | soft/bsp/HAL/inc/sys/alt_llist.h:105-117 | the rest is a well-formed ring and the entry one of its own, so removing it again changes nothing |
| AlarmTimer.Clock.MtimeGet | soft/bsp/HAL/src/mtimer.c:28-39 | the two words read are one value machine time really had at a moment of the call |
| AlarmTimer.Clock.MtimecmpSet | soft/bsp/HAL/src/mtimer.c:41-48 | in the log of the timer every compare value meanwhile is the old one, the new one or at least 0xFFFFFFFF00000000, so no interrupt is signalled unless one of these had been reached |
| AlarmTimer.Clock.SysclkInit | soft/bsp/HAL/inc/sys/alt_alarm.h:93-104 | the tick rate is set once |
| AlarmTimer.Clock.Start | soft/bsp/HAL/src/alt_alarm_start.c:64-98 | a started alarm, also one its own callback starts anew, is listed first and due nticks + delay + 1 ticks on; one that was still listed cuts the way back to the head; the two errors change nothing |
| AlarmTimer.Clock.Stop | soft/bsp/HAL/src/alt_tick.c:66-73 | exactly this alarm leaves the list, wherever a walk in progress stands; stopping it twice is harmless |
| AlarmTimer.Clock.SavedNodeLeadsBack | soft/bsp/HAL/src/alt_tick.c:100-121 | following the links from a saved node reaches the head if and only if the node is still listed |
| AlarmTimer.Clock.StopSaved | soft/bsp/HAL/src/alt_tick.c:100-121 | stopping the alarm whose node the walk has saved keeps the list intact but leaves the walk at that node for ever |
| AlarmTimer.Clock.Fire | soft/bsp/HAL/src/alt_tick.c:105-119 | called back once, now, and the first time not before delay * MTIMECMP_DELTA_AMT machine time has passed since its start; an answer p raises its time by p, and it is listed afterwards exactly if p > 0 and the application has left it listed; an alarm the application did not stop answers with its period and is put off to p ticks from now |
| AlarmTimer.Clock.Settle | soft/bsp/HAL/src/alt_tick.c:111-118 | zero unlists the alarm, anything else adds to its time and leaves it listed if it was; no other alarm changes |
| AlarmTimer.Clock.Visit | soft/bsp/HAL/src/alt_tick.c:102-120 | a node is called back if and only if it is due, and the saved next node is still the rest of the walk |
| AlarmTimer.Clock.Tick | soft/bsp/HAL/src/alt_tick.c:87-128 | the walk steps past no alarm twice and past each one listed at the start unless it was stopped; of those exactly the due ones are called back, once each, in order; afterwards every listed alarm is due at a later tick, and every periodic alarm the application did not stop is still listed as it was started |
| AlarmTimer.Clock.InterruptInit | soft/bsp/HAL/src/mtimer.c:84-88 | the first interrupt is exactly one period after a machine time read during the call |
| AlarmTimer.Clock.TimerIsr | soft/bsp/HAL/src/mtimer.c:64-82 | one tick is counted, the next interrupt is one period after the time read, all alarm invariants hold again and no periodic alarm is lost |
| AlarmTimer.Clock.ExactSchedule | soft/bsp/HAL/src/alt_tick.c:94-121 | an alarm started at tick c with delay n and constant period p >= 1, and not stopped since, was called back at exactly the ticks c + n + 1 + k * p so far, once each |
| AlarmTimer.Clock.StartAndRun | soft/bsp/HAL/src/alt_tick.c:94-121 | the same over a whole run from the start of the alarm: as long as the application does not stop it, it stays listed and is called back at exactly those ticks |
| AlarmTimer.Clock.FirstCall | soft/bsp/HAL/src/alt_alarm_start.c:78-85 | whatever its callback returns, an alarm not stopped or ended since its start was first called back at tick c + n + 1, and not before n * MTIMECMP_DELTA_AMT machine time; until then not at all |
| AlarmTimer.Clock.Run | soft/bsp/HAL/src/mtimer.c:64-88 | over every run of time, starts, stops and interrupts the list stays sound, the alarms listed are exactly those started and neither stopped nor ended since, no periodic alarm is lost, and nticks * MTIMECMP_DELTA_AMT never exceeds the machine time since initialisation |
| I2c.AddressDecodes | soft/bsp/drivers/src/altera_avalon_i2c.c:418-418 | the address byte gives back the 7-bit address and the direction |
| I2c.TransmitShape | soft/bsp/drivers/src/altera_avalon_i2c.c:644-663 | in the words of a transmission, restart is only on the address and stop only on the last word |
| I2c.ReceiveShape | soft/bsp/drivers/src/altera_avalon_i2c.c:819-840 | in the words of a reception, restart is only on the address, stop only on the last read command, and read commands carry no byte |
| I2c.Master.Enable | soft/bsp/drivers/src/altera_avalon_i2c.c:210-232 | refused as busy exactly when already enabled; otherwise the callback record is cleared if the callback is in place |
| I2c.Master.CmdWrite | soft/bsp/drivers/src/altera_avalon_i2c.c:372-402 | the word is written if and only if the call did not time out; it times out after exactly 10000 looks without room, and otherwise the status is the loss of arbitration, the missing acknowledge or the success that the two error bits read after the word showed |
| I2c.Master.TenBitDecodes | soft/bsp/drivers/src/altera_avalon_i2c.c:413-414 | the two bytes of a 10-bit address give back the address and the direction, the first with the pattern 11110 |
| I2c.Master.WaitIdle | soft/bsp/drivers/src/altera_avalon_i2c.c:670-678 | the core is looked at until it is idle, at most as often as the 32-bit count says, and the status becomes a timeout exactly when it never was |
| I2c.Master.SendAddress | soft/bsp/drivers/src/altera_avalon_i2c.c:405-422 | in 7-bit mode exactly the address word is written, unless the call times out; in 10-bit mode the second word is written unless the call times out, and the first may be missing either way; every status but a 10-bit success is borne out by all that was seen |
| I2c.Master.Transmit | soft/bsp/drivers/src/altera_avalon_i2c.c:615-689 | an ended or failed transaction has waited for idle, looked for a missing acknowledge and left the controller disabled; success means that the address (of which a 10-bit one may miss its first word) and then exactly the data were written, and in 7-bit mode that no error bit was seen set; failure that a prefix was written and the error was seen |
| I2c.Master.Close | soft/bsp/drivers/src/altera_avalon_i2c.c:667-686 | the wait for idle and the look for a missing acknowledge end the log, and with what was seen before they bear the status out |
| I2c.Master.RxReadAvailable | soft/bsp/drivers/src/altera_avalon_i2c.c:337-347 | a drain stores in order all that has come, or as much as asked for, and stays within the read commands issued |
| I2c.Master.RxRead | soft/bsp/drivers/src/altera_avalon_i2c.c:350-369 | success stores the next byte to arrive; a timeout means that exactly 100000 looks showed no byte |
| I2c.Master.SendReads | soft/bsp/drivers/src/altera_avalon_i2c.c:821-840 | read commands interleaved with drains never store past the commands issued |
| I2c.Master.ReadRest | soft/bsp/drivers/src/altera_avalon_i2c.c:842-847 | on success the whole buffer holds what arrived, and nothing outside it was written |
| I2c.Master.Receive | soft/bsp/drivers/src/altera_avalon_i2c.c:787-871 | bytes are conserved: success means the buffer is exactly the bytes that arrived during the call, and none are left over; every store is in bounds; the words written, the bracketing and the statuses are as for Transmit |
| I2c.Master.MasterTx | soft/bsp/drivers/src/altera_avalon_i2c.c:511-535 | from disabled to disabled with at most 10000 transmissions, each but the last refused with a status that calls for a retry, all of them used before such a status is returned, and never its own busy; the status is borne out by what was seen since the last one began; success means the log ends with exactly this transmission, in either address mode |
| I2c.Master.MasterRx | soft/bsp/drivers/src/altera_avalon_i2c.c:538-568 | the same for receptions, and success means the buffer holds the last bytes to arrive |
| I2c.Master.MasterTxRx | soft/bsp/drivers/src/altera_avalon_i2c.c:572-612 | the same for the pair, zero lengths included, with one transmission a round: success with bytes to receive means that no error bit was seen set in the last round and the log ends with the transmission without stop and then the repeated-start reception; the controller is left enabled if and only if the last transmission succeeded and there was nothing to receive, and then a timeout is reported as success |
| I2cInterrupts.Transaction.QueueReads | soft/bsp/drivers/src/altera_avalon_i2c.c:915-928 | queueing writes exactly the read commands, takes no byte out, and no more than asked for can come |
| I2cInterrupts.Transaction.Start | soft/bsp/drivers/src/altera_avalon_i2c.c:875-967 | turned away without a change when empty, unregistered or busy, also during a reception; otherwise the status is borne out by what was seen, a reception is under way exactly after success with a stop, its words are the address and the reads, and failure leaves the controller disabled |
| I2cInterrupts.Transaction.Send | soft/bsp/drivers/src/altera_avalon_i2c.c:692-783 | the same for a transmission: exactly the address and the data were queued, and the callback is told |
| I2cInterrupts.Transaction.Callback | soft/bsp/drivers/src/altera_avalon_i2c.c:47-86 | it stores all that has come and no more than is missing, and goes on receiving exactly while bytes are missing; otherwise it closes the transaction after a wait for idle of at most 100000 looks, and completion means the buffer holds exactly the bytes that came, in order |
| I2cInterrupts.Transaction.Reception | soft/bsp/drivers/src/altera_avalon_i2c.c:47-86 | over the call and any number of callbacks the buffer holds a prefix of the bytes that came since the call, and all n of them once it is over |
| I2cClock.CountsFit | soft/bsp/drivers/src/altera_avalon_i2c.c:287-321 | both counts are positive and unchanged by the 16-bit registers if and only if 60 < f / (2 s) <= 65475 |
| I2cClock.ConfigMeans | soft/bsp/drivers/src/altera_avalon_i2c.c:287-321 | which speeds are allowed, which are fast, that the counts lie 60 on either side of half the period (wrapping below it) and the hold count is half the low one, rounded up |
| I2cClock.SpeedAchieved | soft/bsp/drivers/src/altera_avalon_i2c.c:270-321 | in that range the speed v achieved for s satisfies s <= v and v * l < s * (l + 1), through the registers |
| I2cClock.TooSlowAClock | soft/bsp/drivers/src/altera_avalon_i2c.c:275-280 | computing the speed back divides by zero if and only if the clock is slower than twice the speed |
| I2cClock.SlowOverflow | soft/bsp/drivers/src/altera_avalon_i2c.c:300-304 | at 50 MHz a request for 100 Hz gives 468 Hz |
| I2cClock.FastUnderflow | soft/bsp/drivers/src/altera_avalon_i2c.c:300-304 | at 40 MHz a request for 400 kHz gives 609 Hz |
| I2cClock.DividesByZero | soft/bsp/drivers/src/altera_avalon_i2c.c:280-280 | at 500 kHz a request for 400 kHz divides by zero |
| Numerals.CountBounds | soft/bsp/HAL/src/alt_log_printf.c:247-255 | a number of n digits lies between the powers n - 1 and n of its base |
| Numerals.ParseNumeral | soft/bsp/HAL/src/alt_log_printf.c:281-296 | reading a numeral back gives the number, in every base from 2 to 16 and either case |
| Numerals.ParseZeros | soft/bsp/HAL/src/alt_log_printf.c:259-267 | zeros in front do not change what a numeral reads as |
| Printers.PrintThenRead | soft/bsp/HAL/src/alt_log_printf.c:204-313 | for every base, width, flag and word, including the most negative one, reading the printed integer back gives the integer |
| Printers.TextWidth | soft/bsp/HAL/src/alt_log_printf.c:257-279 | the text is as long as the larger of the width and the natural length |
| Printers.PrintersAgree | soft/bsp/HAL/src/alt_printf.c:51-133 | on every format both understand, the logging and the minimal printer give the same text |
| Printers.CountDigits | soft/bsp/HAL/src/alt_log_printf.c:247-255 | the loop finds the digit count and the largest place value, without overflowing 32 bits |
| Printers.CountIs | soft/bsp/HAL/src/alt_printf.c:98-101 | a number between two neighbouring powers has that many digits |
| Printers.CutAbove | soft/bsp/HAL/src/alt_printf.c:104-106 | the digit a mask and shift picks is the one the division finds after the higher digits are cut off |
| Printers.Console.RepChar | soft/bsp/HAL/src/alt_log_printf.c:106-110 | a count that is not positive prints nothing |
| Printers.Console.EmitDigits | soft/bsp/HAL/src/alt_log_printf.c:281-296 | the divide-by-power loop prints the fixed-width numeral |
| Printers.Console.PrintInteger | soft/bsp/HAL/src/alt_log_printf.c:204-297 | pads, signs and prints as the specification that reads back |
| Printers.Console.LogPrintf | soft/bsp/HAL/src/alt_log_printf.c:114-341 | the three-state machine prints what the recursive format specification says, for every format and arguments; Formats says what that is |
| Printers.Console.PrintHex | soft/bsp/HAL/src/alt_printf.c:84-113 | the shift-and-mask loop prints the numeral in base 16 without leading zeros |
| Printers.Console.MinPrintf | soft/bsp/HAL/src/alt_printf.c:51-133 | the minimal printer prints what its format specification says |
| Formats.LettersMean | soft/bsp/HAL/src/alt_log_printf.c:204-317 | on every word %u, %o, %x and %X print the shortest numeral in base 10, 8, 16 and 16, with lower-case letters but for %X, and %d and %i the signed decimal one |
| Formats.WidthMeans | soft/bsp/HAL/src/alt_log_printf.c:177-193 | for every digit string as the width and every precision and length letters behind it, the text is that of the letter alone, filled up with blanks in front, or with zeros behind the sign if the width begins with a zero, to the larger of the two lengths; it reads back as the same number |
| Formats.TextMeans | soft/bsp/HAL/src/alt_log_printf.c:319-332 | strings and characters are filled up with blanks in front to the width |
| Formats.PiecesJoin | soft/bsp/HAL/src/alt_log_printf.c:133-338 | a conversion uses up one argument, and the rest of the format is printed behind its text |
| Formats.CharactersCopied | soft/bsp/HAL/src/alt_log_printf.c:133-163 | characters without a percent sign are copied, and a doubled percent sign prints one |
| TimeOfDay.ReadAtOnce | soft/bsp/HAL/src/alt_settod.c:59-63 | an immediate read gives the time set, at every tick rate |
| TimeOfDay.TicksCounted | soft/bsp/HAL/src/alt_gettod.c:91-93 | seconds and microseconds together count every tick if the rate divides a million |
| TimeOfDay.ReadLater | soft/bsp/HAL/src/alt_gettod.c:56-60 | a later read gives the time set plus the elapsed ticks, normalised and never clamped, if the rate divides a million |
| TimeOfDay.KeepsTimeIff | soft/bsp/HAL/src/alt_gettod.c:91-93 | every read after every setting gives the time set plus the real time since, in whole microseconds, if and only if the rate divides a million |
| TimeOfDay.FirstSecond | soft/bsp/HAL/src/alt_gettod.c:91-93 | below a million and not dividing it, the first second's worth of ticks reads as more than a second |
| TimeOfDay.LastTick | soft/bsp/HAL/src/alt_gettod.c:91-93 | above a million ticks a second the last tick of the first second still reads as zero |
| TimeOfDay.RunsBackwards | soft/bsp/HAL/src/alt_gettod.c:95-107 | at three ticks a second one tick takes the clock back, or to the clamp |
| TimeOfDay.WallClock.SetTimeOfDay | soft/bsp/HAL/src/alt_settod.c:72-96 | stores the time at reset and the zone, or reports the missing clock and changes nothing |
| TimeOfDay.WallClock.Carry | soft/bsp/HAL/src/alt_gettod.c:95-112 | the two loops give the one pair in range with the same total, or zero below zero |
| TimeOfDay.WallClock.GetTimeOfDay | soft/bsp/HAL/src/alt_gettod.c:71-124 | reads the normalised time and the zone, or reports the missing clock and changes nothing |
| TimeOfDay.WallClock.SetAndRead | soft/bsp/HAL/src/alt_settod.c:72-96 | setting a time, n ticks and a read give that time plus n ticks |
| FileTable.FirstFree | soft/bsp/HAL/src/alt_get_fd.c:77-93 | the slot found is free and every one before it is in use |
| FileTable.StepSound | soft/bsp/HAL/src/alt_get_fd.c:77-93 | each call, redirection included, keeps every allocated descriptor at or below max(2, mark) and only devices locked |
| FileTable.OpenExclusive | soft/bsp/HAL/src/alt_open.c:64-92 | no open lets a second descriptor onto a device held for exclusive use |
| FileTable.RedirectExclusive | soft/bsp/HAL/src/alt_io_redirect.c:78-92 | nor does redirecting a standard descriptor |
| FileTable.LockExclusive | soft/bsp/HAL/src/alt_fd_lock.c:54-75 | a granted lock is exclusive if and only if no descriptor at the mark or above shares the device |
| FileTable.StepExclusive | soft/bsp/HAL/src/alt_ioctl.c:123-142 | a call keeps use exclusive if and only if it is not a lock whose scan misses a sharer |
| FileTable.RunSound | soft/bsp/HAL/src/alt_release_fd.c:44-51 | the soundness of the table over all runs |
| FileTable.RunExclusive | soft/bsp/HAL/src/alt_fd_lock.c:61-69 | a run is exclusive throughout if and only if it contains no such lock |
| FileTable.ResetSound | soft/bsp/HAL/src/alt_dev.c:118-149 | the table at reset is sound and exclusive |
| FileTable.TwoOnALockedDevice | soft/bsp/HAL/src/alt_fd_lock.c:61-61 | two opens of one device and a lock of the first leave two descriptors on a locked device |
| FileTable.InclusiveScan | soft/bsp/HAL/src/alt_open.c:79-79 | a scan up to and including the mark finds a sharer exactly when there is one |
| FileTable.InclusiveRun | soft/bsp/HAL/src/alt_open.c:79-87 | with that scan in the lock every run from a sound, exclusive table is exclusive throughout |
| FileTable.InclusiveFromReset | soft/bsp/HAL/src/alt_dev.c:118-149 | in particular every run from reset |
| FileTable.FromStartup | soft/bsp/HAL/src/alt_main.c:110-121 | the table after the redirection of the standard descriptors is sound and exclusive whatever their devices answer, and both run theorems hold from there |
| FileTable.LockOfStdin | soft/bsp/HAL/src/alt_fd_lock.c:61-61 | with standard input on a device of its own, opening that device again and locking descriptor 0 leaves two descriptors on a locked device |
| FileTable.ConsoleNeverLocked | soft/bsp/HAL/src/alt_fd_lock.c:61-69 | while two standard descriptors share a device, every lock on it is refused |
| FileTable.OpenAnswers | soft/bsp/HAL/src/alt_open.c:105-171 | open fails for want of room, else for a held device, else with the driver's own error, and otherwise gives the first free slot to the device; on an error every slot is as before |
| FileTable.CloseUndoesOpen | soft/bsp/HAL/src/alt_release_fd.c:44-51 | giving back what open took leaves every slot as before; the standard descriptors are never given back |
| FileTable.RedirectAnswers | soft/bsp/HAL/src/alt_io_redirect.c:78-92 | redirection changes the one standard descriptor if the device opens, and no slot if it does not |
| FileTable.UnlockUndoesLock | soft/bsp/HAL/src/alt_fd_unlock.c:52-56 | unlocking undoes locking and touches nothing else, and the device that open refused while held can be opened again |
| FileTable.Descriptors.GetFd | soft/bsp/HAL/src/alt_get_fd.c:54-101 | takes the first free slot and raises the mark, or fails and changes nothing |
| FileTable.Descriptors.FileLocked | soft/bsp/HAL/src/alt_open.c:64-92 | answers whether another descriptor holds the device, over all descriptors up to the mark |
| FileTable.Descriptors.Open | soft/bsp/HAL/src/alt_open.c:105-171 | the table and the result after every outcome, the driver's own error included; a failed open gives its slot back |
| FileTable.Descriptors.Redirect | soft/bsp/HAL/src/alt_io_redirect.c:78-92 | the standard descriptor gets what open allocated and the new slot is given back; a failed open changes nothing |
| FileTable.Descriptors.Lock | soft/bsp/HAL/src/alt_fd_lock.c:54-75 | grants or refuses by the descriptors below the mark, as the code scans |
| FileTable.Descriptors.Close | soft/bsp/HAL/src/alt_close.c:64-101 | the slot is given back whatever the driver answers; a negative descriptor changes nothing |
| FileTable.Descriptors.PerformAll | soft/bsp/HAL/src/alt_open.c:105-171 | the table in place follows the run the two theorems are about |

## Left out

- JTAG UART: the small polling driver, the RTOS flag and semaphore branches, and the FIFO reset under `ALTERA_AVALON_JTAG_UART_IGNORE_FIFO_FULL_ERROR`, which are other builds.
- JTAG UART: a call that waits for ever is observed for `patience` waits and then reported as `Blocked`; what is proved of it is that it cannot have missed a wake-up.
- JTAG UART: one foreground call runs at a time; a reader preempting a writer, or the reverse, is not modelled.
- DFL: the parent stack is a sequence; the growth of its array (whose test comes one slot late) and its default with top -1 (never assigned) are not modelled.
- DFL: allocation failures, debug printing and the report after the scan.
- DFL: memory from which the walk does not end.
- DflFormat.BaseAddress: masks and shifts are written as division and remainder by powers of two, and pointers are 32 bits wide.
- AlarmTimer.Clock.Tick: callbacks stop any alarm but the one whose node the walk has saved; what happens then is `AlarmTimer.Clock.StopSaved`.
- AlarmTimer: wrap of the 64-bit tick counter and of deadlines.
- I2c.Master.MasterTxRx: 10-bit mode, in which a lost first address word lets data be taken for read commands.
- I2c: the depth of the FIFOs, the sleeps before the last retries, and sizes times 10000 other than modulo 2^32.
- I2cInterrupts: the transaction status call, and the retries around interrupt transactions.
- I2cClock.SpeedGet: division by zero is reported as a result; what the processor does then is not modelled.
- Printers: formats and strings end at their end instead of at a NUL; a missing argument reads as zero or empty; widths are unbounded integers.
- Printers.Console.PrintHex: the mask and shift of a word are written as a quotient by a power of 16 and a remainder by 16.
- TimeOfDay: seconds are unbounded integers, and products of ticks and microseconds stay below 2^64.
- FileTable: look-up of devices and file systems by name, the user's own flag bits, and the semaphores; errors are returned negated instead of through `errno`.
- Bus access macros, boot code, interrupt dispatch, `alt_sbrk`, gmon, stub system calls, flash and DMA: nothing hard to state about them.
