# Verified model of the USB keyboard game's firmware and ghost hardware

This project models the parts of the repository that carry state, concurrency or delicate arithmetic and
proves what they are for. Code that changes things step by step is modelled by classes and loops with the
source's own fields and branches; what holds over whole runs is proved about specification state machines,
and every class method is proved to be a step, or a run, of its machine.

- **JTAG UART driver** (`CircularBuffer`, `UartProtocol`, `UartDriver`). Two 2048-byte circular buffers shared
  by thread code and an interrupt routine. The semaphores compile to nothing in this build, so only two updates
  of the enable bits are protected. `UartProtocol` is a step machine: every look at the indices, byte copy and index
  store of a thread is its own step, and interrupt, timeout, host and device steps may come between any two of them.
  A look loads both indices at once; one of the two only the thread itself stores.
  `UartDriver` is the driver with its loops; `Preempt` stands wherever an interrupt can be taken, and a ghost log
  ties each call to a run of the machine. Assumed of the device: RVALID clear implies RAVAIL clear, RI implies RE
  set and a nonempty receive FIFO, WI implies WE set and free transmit space. `irq_enable` and the control register
  always agree and are one pair of bits.
- **Alarms** (`TickArithmetic`, `DeadlineScheduler`, `IntrusiveList`, `AlarmQueue`). A wrapping 32-bit counter,
  alarms with a time and a rollover flag, an intrusive circular list. `AlarmQueue` is proved to refine a scheduler
  with unbounded time. A callback may start and stop any alarms, but does not start its own. It may even stop the
  alarm that the pass visits next and start it again; only if that alarm is left stopped when the callback returns,
  which can happen (`LoopGetsLost`), `alt_tick` never ends (`RunAdrift`), and it ends in all other cases (`RunPass`).
  The list head is an entry whose alarm fields are not used, and an alarm in no list links to itself.
- **Descriptors and locks** (`DescriptorTable`, `FdTable`). `alt_fd_lock` scans below `alt_max_fd` and
  `alt_file_locked` up to it, as written. The comment above `alt_fd_lock` promises exclusive access; the code does
  not give it, and `WhenLockIsExclusive` says exactly when it does. Which entry a name leads to and what the
  drivers answer are inputs.
- **Two printers** (`Arithmetic`, `Numerals`, `FormatText`, `LogPrintf`, `AltPrintf`). A state machine with
  division by place values and a direct scanner with shift and mask. Formats are the characters up to the
  terminating zero; output is the sequence of characters written to the device.
- **Time of day** (`TimeOfDay`) and **heap** (`HeapSlab`). The comment of `settimeofday` promises that an immediate
  read returns the time set; `ReadBack` gives the exact condition. The comment of `sbrk` says that nothing is
  checked; the code checks the heap limit, and that is modelled. The heap lies in the lower half of the address
  space, as in this system (software/usb_kb_bsp/linker.x).
- **Ghosts** (`GhostMovement`). Ten-bit registers and turn logic, with the wall lookup. Walls, generation bits and
  player position are arbitrary inputs at every clock. The maze of `boundaryBank.sv` is open at the right end of
  two rows, so a ghost can step off the twelve by twelve tiles; it turns back on the next tile.

`dafny verify dfyconfig.toml` checks the whole project.

## Model

| member | source | states |
|---|---|---|
| CircularBuffer.Push | software/usb_kb_bsp/drivers/src/altera_avalon_jtag_uart_init.c:149-150 | storing a byte at the write index and moving that index appends exactly that byte to what is waiting |
| CircularBuffer.Pop | software/usb_kb_bsp/drivers/src/altera_avalon_jtag_uart_read.c:136-140 | moving the read index over a run removes exactly the bytes that were copied out, oldest first |
| CircularBuffer.Publish | software/usb_kb_bsp/drivers/src/altera_avalon_jtag_uart_write.c:122-126 | moving the write index over slots filled before appends exactly what was stored in them |
| CircularBuffer.StoreOutside | software/usb_kb_bsp/drivers/src/altera_avalon_jtag_uart_write.c:122 | stores into free slots never show in what is waiting |
| CircularBuffer.FullIffNoRoom | software/usb_kb_bsp/drivers/src/altera_avalon_jtag_uart_init.c:137-139 | "next index equals read index" means LEN - 1 bytes wait; equal indices mean none |
| CircularBuffer.AdvanceIsRemainder | software/usb_kb_bsp/drivers/src/altera_avalon_jtag_uart_read.c:140 | the index arithmetic of the model is the remainder the driver computes |
| UartProtocol.InvAlways | software/usb_kb_bsp/drivers/src/altera_avalon_jtag_uart_init.c:117-196 | in every run of thread, interrupt, timeout, host and device steps the whole invariant holds: bytes conserved on both sides, old snapshots usable, no interrupt switched off that is needed |
| UartProtocol.StepKeeps | software/usb_kb_bsp/drivers/src/altera_avalon_jtag_uart_init.c:132-195 | every single step of anybody keeps that invariant |
| UartProtocol.NothingLostReceiving | software/usb_kb_bsp/drivers/src/altera_avalon_jtag_uart_read.c:115-146 | over every interleaving: bytes delivered, then waiting, then still in the device are exactly the bytes the host sent, in order; bytes copied but not yet published continue what was delivered |
| UartProtocol.NothingLostSending | software/usb_kb_bsp/drivers/src/altera_avalon_jtag_uart_write.c:103-127 | over every interleaving: bytes sent to the device, then pending, are exactly the bytes accepted; the device is never given more than it has room for |
| UartProtocol.EveryAccessInBounds | software/usb_kb_bsp/drivers/src/altera_avalon_jtag_uart_write.c:109-126 | no copy of read or write and no store of the interrupt routine leaves its array, in any run, however stale the snapshot |
| UartProtocol.EmptySnapshot | software/usb_kb_bsp/drivers/src/altera_avalon_jtag_uart_read.c:122-131 | a reader that saw no data and has taken none has receive interrupts on, or data has come since |
| UartProtocol.FullSnapshot | software/usb_kb_bsp/drivers/src/altera_avalon_jtag_uart_write.c:106-117 | a writer that saw no free slot, with nothing sent since, faces LEN - 1 pending bytes |
| UartProtocol.PendingSnapshot | software/usb_kb_bsp/drivers/src/altera_avalon_jtag_uart_write.c:136-139 | with bytes pending and no writer between publication and store of WE, WE is set; equal indices mean all accepted bytes were sent |
| UartProtocol.InterruptsOnWhenNeeded | software/usb_kb_bsp/drivers/src/altera_avalon_jtag_uart_write.c:126-137 | in every run RE is clear only with a full receive buffer or a reader between taking bytes and the store of RE; with bytes pending WE is clear only between a writer's publication and its store of WE |
| UartProtocol.SpinningReaderIsWoken | software/usb_kb_bsp/drivers/src/altera_avalon_jtag_uart_read.c:172-195 | no lost wake-up, whatever host, device, interrupts and writers do meanwhile: while a spinning reader sees nothing new, RE is set and the interrupt is raised if a byte was there; after the routine was entered for received bytes and has returned, the reader sees a new index |
| UartProtocol.SpinningWriterIsWoken | software/usb_kb_bsp/drivers/src/altera_avalon_jtag_uart_write.c:136-184 | likewise for a spinning writer: while it sees nothing new, WE is set and the interrupt is raised if the device had room, with or without RI; after the routine was entered for room and has returned, the writer sees a new index |
| UartProtocol.PendingBytesKeepTransmitting | software/usb_kb_bsp/drivers/src/altera_avalon_jtag_uart_init.c:247-251 | close is woken, whatever everybody but the writer does meanwhile: while bytes are pending WE is set; until one is sent the interrupt is raised if the device had room; once the routine was entered for room and has returned, fewer are pending |
| UartProtocol.IsrBounded | software/usb_kb_bsp/drivers/src/altera_avalon_jtag_uart_init.c:117-196 | with no arrivals and no host draining the interrupt routine takes at most a bounded number of steps, counted by RE, WE, receive FIFO and transmit space |
| UartProtocol.IsrStepUsesRank | software/usb_kb_bsp/drivers/src/altera_avalon_jtag_uart_init.c:132-195 | each step of the interrupt routine uses up some of that bound |
| UartProtocol.IsrNeverStuck | software/usb_kb_bsp/drivers/src/altera_avalon_jtag_uart_init.c:117-123 | whatever the control register shows, the routine has a next step until it returns |
| UartProtocol.LargeTimeoutNeverReached | software/usb_kb_bsp/drivers/src/altera_avalon_jtag_uart_init.c:215-222 | host_inactive stays at most INT_MAX - 2 in every run, so a timeout of INT_MAX - 1 or INT_MAX is never reached |
| UartProtocol.SilenceIsCounted | software/usb_kb_bsp/drivers/src/altera_avalon_jtag_uart_init.c:203-222 | in every run host_inactive is the number of one-second checks without a host since one found it last, or since the start, up to INT_MAX - 2 |
| UartProtocol.InfiniteTimeoutIsPermanent | software/usb_kb_bsp/drivers/src/altera_avalon_jtag_uart_ioctl.c:60-68 | once INT_MAX, the timeout stays INT_MAX whatever is requested later |
| UartDriver.JtagUart.constructor | software/usb_kb_bsp/drivers/src/altera_avalon_jtag_uart_init.c:66-100 | the driver starts with both buffers empty and RE on; without an alarm the timeout is INT_MAX |
| UartDriver.JtagUart.Irq | software/usb_kb_bsp/drivers/src/altera_avalon_jtag_uart_init.c:117-197 | the interrupt routine is a run of the step machine, leaves the thread's own indices alone, and ends however often the host acts meanwhile |
| UartDriver.JtagUart.ReceiveOne | software/usb_kb_bsp/drivers/src/altera_avalon_jtag_uart_init.c:132-154 | one round of the receive loop is one step of the machine and uses up rank |
| UartDriver.JtagUart.ReceiveEnd | software/usb_kb_bsp/drivers/src/altera_avalon_jtag_uart_init.c:156-166 | receive interrupts go off only where the buffer is full |
| UartDriver.JtagUart.IrqTransmit | software/usb_kb_bsp/drivers/src/altera_avalon_jtag_uart_init.c:169-195 | never writes more bytes to the device than the space it read |
| UartDriver.JtagUart.SecondElapsed | software/usb_kb_bsp/drivers/src/altera_avalon_jtag_uart_init.c:203-225 | the one-second check resets the counter if AC is set and else raises it, up to its bound; one step of the machine |
| UartDriver.JtagUart.SecondsCounted | software/usb_kb_bsp/drivers/src/altera_avalon_jtag_uart_init.c:203-222 | at every point of every call host_inactive counts the seconds without a host in the life of the driver |
| UartDriver.JtagUart.TakeAvailable | software/usb_kb_bsp/drivers/src/altera_avalon_jtag_uart_read.c:119-142 | the inner loop of read hands over the next waiting bytes in order, and stops short of the space only when it has taken everything that was stored when it began |
| UartDriver.JtagUart.ReadLeave | software/usb_kb_bsp/drivers/src/altera_avalon_jtag_uart_read.c:188-195 | after any bytes were taken RE is on again, though an interrupt may come right before; nothing more is handed over |
| UartDriver.JtagUart.Read | software/usb_kb_bsp/drivers/src/altera_avalon_jtag_uart_read.c:101-203 | a positive result is the number of bytes handed over and they are the next ones in order, all that had been stored at the call if there is space for them; nothing else of the caller's buffer changes; waiting data is never refused; a blocking call gives up only if at some moment of the call the host had been silent for the timeout, and goes on waiting only while it has not |
| UartDriver.JtagUart.FillAvailable | software/usb_kb_bsp/drivers/src/altera_avalon_jtag_uart_write.c:103-127 | the inner loop of write accepts a prefix of the data, all of it or at least the room there was |
| UartDriver.JtagUart.Write | software/usb_kb_bsp/drivers/src/altera_avalon_jtag_uart_write.c:84-215 | a positive result is exactly the number of bytes accepted, a prefix of the data; room that is there is used; a blocking call comes back short only if the host was missing at the last check and there is room again or the host was silent for the timeout during the call; it goes on waiting only while the host was not silent for that long |
| UartDriver.JtagUart.Close | software/usb_kb_bsp/drivers/src/altera_avalon_jtag_uart_init.c:241-254 | success means everything accepted was sent, unless the host was given up, which an unreachable timeout rules out; it refuses or waits only while bytes are pending and the host is not given up |
| UartDriver.JtagUart.SetTimeoutRequest | software/usb_kb_bsp/drivers/src/altera_avalon_jtag_uart_ioctl.c:60-68 | refused for good once the timeout is INT_MAX; out-of-range requests give INT_MAX - 1 |
| UartDriver.JtagUart.GetConnected | software/usb_kb_bsp/drivers/src/altera_avalon_jtag_uart_ioctl.c:70-77 | reports whether the host was seen within the timeout; always so for INT_MAX - 1 |
| TickArithmetic.StartStands | software/usb_kb_bsp/HAL/src/alt_alarm_start.c:80-96 | time and rollover of a started alarm stand for the tick nticks + 1 ahead, whatever the counter shows |
| TickArithmetic.DueExactlyAtDeadline | software/usb_kb_bsp/HAL/src/alt_tick.c:109-115 | a tick makes the alarm due exactly at its unbounded deadline, after any number of counter wraps |
| TickArithmetic.AgainStands | software/usb_kb_bsp/HAL/src/alt_tick.c:127-137 | after a callback the fields stand for the deadline the callback asked for |
| TickArithmetic.FirstDueAtDeadline | software/usb_kb_bsp/HAL/src/alt_tick.c:96-116 | left alone, the alarm is called for the first time exactly at its deadline |
| TickArithmetic.StartedAlarmIsExact | software/usb_kb_bsp/HAL/src/alt_alarm_start.c:78-98 | the alarm comes nticks + 1 ticks after its start if and only if nticks is not 2^32 - 1 or the counter shows 2^32 - 1 |
| TickArithmetic.LargestIntervalComesAtOnce | software/usb_kb_bsp/HAL/src/alt_alarm_start.c:82-96 | counterexample: interval 2^32 - 1 started at tick 7 comes on the very next tick |
| DeadlineScheduler.AlarmsComeOnTime | software/usb_kb_bsp/HAL/src/alt_tick.c:96-139 | over every run, whatever other alarms and callbacks do: an alarm is called at its deadline, then exactly as many ticks later as each callback asked, never besides |
| DeadlineScheduler.StartedAlarmComesOnTime | software/usb_kb_bsp/HAL/src/alt_alarm_start.c:78-98 | so an alarm started with nticks comes first nticks + 1 ticks later |
| DeadlineScheduler.PassCallsOnce | software/usb_kb_bsp/HAL/src/alt_tick.c:100-141 | one tick calls no alarm twice and none started meanwhile, and calls every due one unless a callback stopped it, whatever callbacks start, stop and start again |
| DeadlineScheduler.PassVisitsOnce | software/usb_kb_bsp/HAL/src/alt_tick.c:100-141 | if no callback stops the alarm next in line, one tick visits no alarm twice, none started meanwhile, and every listed one unless a callback stopped it |
| DeadlineScheduler.VisitsEnd | software/usb_kb_bsp/HAL/src/alt_tick.c:100-141 | every visit leaves fewer alarms due, or as many due and less to visit: a pass that does not get lost ends |
| DeadlineScheduler.GoesOnAtSuccessor | software/usb_kb_bsp/HAL/src/alt_tick.c:102-102 | the pass goes on at the alarm that was next in line before the callback, even if that was stopped and started again |
| DeadlineScheduler.RestartIsSurvived | software/usb_kb_bsp/HAL/src/alt_tick.c:102-140 | a callback that stops the alarm next in line and starts it again is such a case: the pass goes on at the restarted alarm, through those already visited |
| DeadlineScheduler.StopLosesSuccessor | software/usb_kb_bsp/HAL/src/alt_tick.c:102-140 | a callback that stops the alarm next in line and leaves it so breaks the condition for that, whatever it replies |
| DeadlineScheduler.SuccessorGetsLost | software/usb_kb_bsp/HAL/src/alt_tick.c:100-141 | which happens: two alarms started before the first tick, the first one called stops the other |
| DeadlineScheduler.TickLeaves | software/usb_kb_bsp/HAL/src/alt_tick.c:100-141 | what every tick leaves, whatever callbacks start, stop and start again: an alarm listed before is gone just when some callback stopped it or its own replied 0, has moved to the tick its reply asked for if it was called, and is untouched otherwise; these keep their order behind what the starts left |
| DeadlineScheduler.PassVisitsInOrder | software/usb_kb_bsp/HAL/src/alt_tick.c:100-141 | if no callback stops the alarm next in line, each visit goes to the first listed alarm neither visited nor stopped so far and calls it exactly when it is due |
| DeadlineScheduler.FinishedPassVisitsAll | software/usb_kb_bsp/HAL/src/alt_tick.c:100-141 | when callbacks only start alarms, every listed alarm is visited, in list order, and exactly the due ones are called |
| DeadlineScheduler.UnlistedIsSilent | software/usb_kb_bsp/HAL/src/alt_tick.c:96-141 | over every run: as long as nobody starts an alarm that is not listed, it is neither called nor listed |
| DeadlineScheduler.StoppedAlarmIsSilent | software/usb_kb_bsp/HAL/src/alt_tick.c:66-73 | so an alarm that was stopped is not called until it is started again |
| DeadlineScheduler.EventsKeepFormed | software/usb_kb_bsp/HAL/src/alt_tick.c:96-141 | in every run alarms are listed once and their deadlines lie ahead, by less than one turn of the counter |
| IntrusiveList.Insert | software/usb_kb_bsp/HAL/inc/sys/alt_llist.h:90-98 | the entry becomes first; next and previous stay one consistent cycle; nothing but three entries is touched |
| IntrusiveList.Remove | software/usb_kb_bsp/HAL/inc/sys/alt_llist.h:105-117 | the entry leaves the cycle, the others keep their order; removing it again changes nothing |
| AlarmQueue.Queue.constructor | software/usb_kb_bsp/HAL/src/alt_tick.c:51-58 | counter 0 and an empty list are the scheduler at its start |
| AlarmQueue.Queue.Start | software/usb_kb_bsp/HAL/src/alt_alarm_start.c:64-112 | starting an alarm is a Start of the scheduler, with the error codes of the code and no change on an error |
| AlarmQueue.Queue.Stop | software/usb_kb_bsp/HAL/src/alt_tick.c:66-73 | stopping is a Stop of the scheduler; an alarm in no list makes no difference |
| AlarmQueue.Queue.Round | software/usb_kb_bsp/HAL/src/alt_tick.c:102-140 | one round of the loop wherever it stands; on an alarm in no list that is not due it changes no link and no time and stays where it is |
| AlarmQueue.Queue.Visit | software/usb_kb_bsp/HAL/src/alt_tick.c:100-141 | a round from the first alarm still to be visited is one visit of the scheduler and the saved successor is where the pass goes on, unless the callback returned with the successor stopped |
| AlarmQueue.Queue.RunPass | software/usb_kb_bsp/HAL/src/alt_tick.c:90-141 | the loop ends, and then was a complete pass of the scheduler, unless a callback returns with the saved successor stopped |
| AlarmQueue.Queue.LoopGetsLost | software/usb_kb_bsp/HAL/src/alt_tick.c:100-141 | a callback can do that: an instance of the lost outcome, at the first tick with two alarms |
| AlarmQueue.Queue.RunAdrift | software/usb_kb_bsp/HAL/src/alt_tick.c:100-141 | in that case the loop never ends: after any number of further rounds, with any callbacks, it stands on the same alarm |
| AlarmQueue.Queue.Tick | software/usb_kb_bsp/HAL/src/alt_tick.c:87-148 | alt_tick is exactly one Tick of the unbounded scheduler and ends, if every callback returns with the saved successor listed, and otherwise stays in its loop |
| AlarmQueue.Queue.Rearm | software/usb_kb_bsp/HAL/src/alt_tick.c:127-137 | a re-armed alarm stands for the deadline its callback asked for |
| AlarmQueue.Queue.Ask | software/usb_kb_bsp/HAL/src/alt_alarm_start.c:64-112 | a start or stop from outside a callback is one event of the scheduler |
| DescriptorTable.AlwaysGood | software/usb_kb_bsp/HAL/src/alt_fd_lock.c:61-69 | in every run of open, close, ioctl, fcntl and redirection the table stays well formed although the lock scan stops before alt_max_fd and alt_max_fd starts at -1 |
| DescriptorTable.LocksInEveryRun | software/usb_kb_bsp/HAL/src/alt_ioctl.c:127-139 | in every run at most one descriptor of a device holds its lock, and at most one other one, with a larger index, refers to the device |
| DescriptorTable.OpenSucceedsJustWhen | software/usb_kb_bsp/HAL/src/alt_open.c:118-168 | open succeeds if and only if the name leads somewhere, an index is free, nobody holds a lock on the device and the driver agrees; otherwise the error is that of the first of these that fails |
| DescriptorTable.OpenHandsOutLeastFree | software/usb_kb_bsp/HAL/src/alt_get_fd.c:77-88 | a successful open hands out the least free index, never one in use and never 0 to 2, with the flags asked for, and touches nothing else |
| DescriptorTable.FailedOpenRestores | software/usb_kb_bsp/HAL/src/alt_open.c:161-166 | a failed open puts the contents back if and only if the slot it had taken, if any, had no flags left from fcntl on a closed descriptor |
| DescriptorTable.CloseFrees | software/usb_kb_bsp/HAL/src/alt_close.c:78-94 | close frees the descriptor whatever the driver answers, unless it is a standard one, and touches nothing else; the index can be handed out again |
| DescriptorTable.OpenThenClose | software/usb_kb_bsp/HAL/src/alt_close.c:78-94 | closing what was just opened puts the contents of the table back if and only if the slot it had taken had no flags left from fcntl on a closed descriptor |
| DescriptorTable.LockTaken | software/usb_kb_bsp/HAL/src/alt_ioctl.c:127-132 | an exclusive lock is granted by setting one flag of the descriptor, or refused with no change |
| DescriptorTable.LockGivenBack | software/usb_kb_bsp/HAL/src/alt_ioctl.c:134-137 | giving it back clears that flag and nothing else |
| DescriptorTable.PassedOn | software/usb_kb_bsp/HAL/src/alt_ioctl.c:140-159 | other requests, and all on file systems, are answered by the driver and change nothing in the table |
| DescriptorTable.DeviceIsFreeAgain | software/usb_kb_bsp/HAL/src/alt_release_fd.c:46-50 | once the holder of a lock has given it back or is closed, an open of the device succeeds whenever there is a free index, as there is behind a close, and the driver agrees |
| DescriptorTable.StatusReadsBack | software/usb_kb_bsp/HAL/src/alt_fcntl.c:80-92 | what F_SETFL sets and clears is what F_GETFL shows; all other flags and descriptors are as before |
| DescriptorTable.HolderIsSeen | software/usb_kb_bsp/HAL/src/alt_open.c:79-87 | the scan of alt_file_locked finds a holder of the device whenever there is one |
| DescriptorTable.OpenUntilClosed | software/usb_kb_bsp/HAL/src/alt_release_fd.c:46-50 | in every run a descriptor refers to its device until it is closed, or redirected if standard |
| DescriptorTable.LockedUntilReleased | software/usb_kb_bsp/HAL/src/alt_fcntl.c:84-92 | in every run a lock lasts until its holder is unlocked, closed or redirected; fcntl cannot release it |
| DescriptorTable.LockedDeviceCannotBeOpened | software/usb_kb_bsp/HAL/src/alt_open.c:72-87 | meanwhile every open of the device fails |
| DescriptorTable.WhenLockIsExclusive | software/usb_kb_bsp/HAL/src/alt_fd_lock.c:61-69 | when a lock is granted, and the exact condition under which its holder is then the only user |
| DescriptorTable.LockWithTwoUsers | software/usb_kb_bsp/HAL/src/alt_fd_lock.c:61-69 | counterexample: a run in which a lock is granted although a second descriptor is open on the device |
| DescriptorTable.OnlyUserUntilReleased | software/usb_kb_bsp/HAL/src/alt_open.c:72-87 | in every run the only user of a device it has locked stays the only user until it gives the lock or the descriptor away |
| DescriptorTable.LockExcludesOthers | software/usb_kb_bsp/HAL/src/alt_fd_lock.c:61-69 | so a lock granted under the condition of WhenLockIsExclusive excludes everybody else as long as it is held |
| DescriptorTable.FailedOpenChangesTable | software/usb_kb_bsp/HAL/src/alt_open.c:161-166 | counterexample: a run after which a refused open leaves the table different |
| DescriptorTable.RedirectTakesOver | software/usb_kb_bsp/HAL/src/alt_io_redirect.c:58-72 | a redirected standard descriptor refers to the new device with the flags asked for; the index used on the way is free again, the others are as before and no locks come up |
| DescriptorTable.AllTakenOver | software/usb_kb_bsp/HAL/src/alt_io_redirect.c:85-94 | if all three devices can be opened, output and error are then for writing and input for reading, each on its own device |
| DescriptorTable.RedirectKeeps | software/usb_kb_bsp/HAL/src/alt_io_redirect.c:58-72 | taking over a freshly opened descriptor keeps the table well formed |
| DescriptorTable.ChangeStatus | software/usb_kb_bsp/HAL/src/alt_fcntl.c:86-92 | changing the status flags leaves both driver flags as they are |
| FdTable.Descriptors.constructor | software/usb_kb_bsp/HAL/src/alt_dev.c:118-149 | the initial table |
| FdTable.Descriptors.GetFd | software/usb_kb_bsp/HAL/src/alt_get_fd.c:54-101 | takes the least free slot and raises the high-water mark, or reports a full table |
| FdTable.Descriptors.FileLocked | software/usb_kb_bsp/HAL/src/alt_open.c:64-92 | marks the descriptor as a device and reports a holder |
| FdTable.Descriptors.Open | software/usb_kb_bsp/HAL/src/alt_open.c:105-171 | open as the table specifies it, with result, errno and undo |
| FdTable.Descriptors.Close | software/usb_kb_bsp/HAL/src/alt_close.c:64-101 | close as the table specifies it; standard descriptors keep their slot |
| FdTable.Descriptors.FdLock | software/usb_kb_bsp/HAL/src/alt_fd_lock.c:54-75 | the lock scan as written |
| FdTable.Descriptors.FdUnlock | software/usb_kb_bsp/HAL/src/alt_fd_unlock.c:52-56 | clears the lock flag only |
| FdTable.Descriptors.Ioctl | software/usb_kb_bsp/HAL/src/alt_ioctl.c:106-168 | lock requests are answered here for devices, everything else by the driver |
| FdTable.Descriptors.Fcntl | software/usb_kb_bsp/HAL/src/alt_fcntl.c:66-101 | shows and changes only flags that are not the driver's |
| FdTable.Descriptors.OpenFd | software/usb_kb_bsp/HAL/src/alt_io_redirect.c:58-72 | one redirection as the table specifies it |
| FdTable.Descriptors.IoRedirect | software/usb_kb_bsp/HAL/src/alt_io_redirect.c:85-94 | stdout, stdin and stderr in this order |
| Numerals.IntegerRoundTrip | software/usb_kb_bsp/HAL/src/alt_log_printf.c:204-296 | every 32-bit value, signed or not, -2^31 included, in every base, padding and width reads back as what it means |
| Numerals.NumeralReadsBack | software/usb_kb_bsp/HAL/src/alt_log_printf.c:280-296 | the digits mean the value |
| Numerals.NumeralDigits | software/usb_kb_bsp/HAL/src/alt_log_printf.c:286-294 | a numeral is made of digits of its base, with letters beyond 9 only in the case asked for |
| Numerals.FieldIsPadded | software/usb_kb_bsp/HAL/src/alt_log_printf.c:255-278 | a field with zeros has no spaces and starts with its sign; any other one is spaces, then sign and numeral |
| Numerals.NoLeadingZero | software/usb_kb_bsp/HAL/src/alt_log_printf.c:280-296 | no leading zero except for zero itself |
| Numerals.Field | software/usb_kb_bsp/HAL/src/alt_log_printf.c:255-278 | the field is exactly as long as the larger of width and digits plus sign |
| Numerals.CountDigits | software/usb_kb_bsp/HAL/src/alt_log_printf.c:246-253 | the counting loop gives the number of digits and a place value that never overflows 32 bits |
| Numerals.PrintDigits | software/usb_kb_bsp/HAL/src/alt_log_printf.c:280-296 | division by falling place values prints the usual numeral |
| Numerals.PrintInteger | software/usb_kb_bsp/HAL/src/alt_log_printf.c:203-297 | the whole integer branch prints the padded numeral |
| Numerals.RepChar | software/usb_kb_bsp/HAL/src/alt_log_printf.c:106-110 | prints the character that many times, none for a negative count |
| FormatText.WordNumber | software/usb_kb_bsp/HAL/src/alt_printf.c:81-112 | the number of a word argument is made of its hexadecimal digits |
| FormatText.ByteIs | software/usb_kb_bsp/HAL/src/alt_log_printf.c:317-320 | the character shown for a word argument is that of its lowest eight bits |
| FormatText.IntegersReadBack | software/usb_kb_bsp/HAL/src/alt_log_printf.c:196-317 | d and i read back as a signed decimal number, u as an unsigned one, o in octal, x and X in hexadecimal, x without upper case letters and X without lower case ones |
| FormatText.TextShown | software/usb_kb_bsp/HAL/src/alt_log_printf.c:322-333 | a text is shown as it is, behind spaces up to the width |
| FormatText.CharShown | software/usb_kb_bsp/HAL/src/alt_log_printf.c:317-320 | a character is shown behind spaces up to the width |
| LogPrintf.LogPrintf | software/usb_kb_bsp/HAL/src/alt_log_printf.c:114-341 | the state machine prints what the grammar of directives says, for every format and all arguments that suit it |
| LogPrintf.PrintArgument | software/usb_kb_bsp/HAL/src/alt_log_printf.c:196-336 | each letter shows its argument as specified; unknown letters show nothing |
| LogPrintf.OneDirective | software/usb_kb_bsp/HAL/src/alt_log_printf.c:153-336 | each of the letters c, d, i, o, s, u, x, X behind any zero flag and width shows its argument as that directive |
| LogPrintf.IntegerDirective | software/usb_kb_bsp/HAL/src/alt_log_printf.c:196-317 | so what the printer shows for every integer directive reads back in its own base and case |
| LogPrintf.UnknownLetter | software/usb_kb_bsp/HAL/src/alt_log_printf.c:196-336 | all other letters show nothing |
| LogPrintf.WidthSnoc | software/usb_kb_bsp/HAL/src/alt_log_printf.c:172-192 | reading one more flag character does to the width what the number in front of the first dot requires |
| LogPrintf.ScanComplete | software/usb_kb_bsp/HAL/src/alt_log_printf.c:153-195 | any mix of flags in front of a letter is read as that directive |
| AltPrintf.AltPrintf | software/usb_kb_bsp/HAL/src/alt_printf.c:60-128 | the direct scanner prints what its reading of the format says |
| AltPrintf.PrintHex | software/usb_kb_bsp/HAL/src/alt_printf.c:81-112 | shift and mask print the usual hexadecimal numeral, in lower case, and it reads back |
| AltPrintf.HexDirective | software/usb_kb_bsp/HAL/src/alt_printf.c:81-112 | so %x shows the number in hexadecimal without upper case letters |
| AltPrintf.SamePieces | software/usb_kb_bsp/HAL/src/alt_printf.c:60-128 | both printers read every common format as the same pieces |
| AltPrintf.PrintersAgree | software/usb_kb_bsp/HAL/src/alt_printf.c:60-128 | on formats made of literals, %%, %c, %s, %x and letters unknown to both, with a trailing lone % or not, both printers print the same for all suitable arguments |
| TimeOfDay.ReadBack | software/usb_kb_bsp/HAL/src/alt_settod.c:80-84 | an immediate gettimeofday returns what was set if and only if the 32-bit product dropped a multiple of 15625 turns, or the time was zero and the result is cut off there |
| TimeOfDay.ReadBackGoesWrong | software/usb_kb_bsp/HAL/src/alt_settod.c:83-84 | counterexample: at 1000 ticks a second, one second set at tick 4294968 reads back as nearly two |
| TimeOfDay.RunsExactly | software/usb_kb_bsp/HAL/src/alt_gettod.c:91-112 | afterwards the clock advances by exactly the time of the ticks, microseconds in range, for rates that divide a million |
| TimeOfDay.ExactJustForWholeTicks | software/usb_kb_bsp/HAL/src/alt_gettod.c:91-93 | the time since reset is the time of the ticks at every tick if and only if the rate divides a million |
| TimeOfDay.NeverOffByASecond | software/usb_kb_bsp/HAL/src/alt_gettod.c:91-93 | for every tick rate the time taken for the ticks is off by less than a second, at every tick |
| TimeOfDay.NarrowIsWideWhen | software/usb_kb_bsp/HAL/src/alt_settod.c:83-84 | exactly when the 32-bit and the 64-bit product leave the same microseconds |
| TimeOfDay.Normalise | software/usb_kb_bsp/HAL/src/alt_gettod.c:95-112 | the two loops end with the same time normalised, cut off at zero only when microseconds were missing |
| TimeOfDay.Clock.SetTimeOfDay | software/usb_kb_bsp/HAL/src/alt_settod.c:72-96 | stores the time, or reports that there is no clock and changes nothing; reads back while the product fits 32 bits |
| TimeOfDay.Clock.GetTimeOfDay | software/usb_kb_bsp/HAL/src/alt_gettod.c:71-124 | shows the normalised time, or reports that there is no clock and fills in nothing |
| HeapSlab.BlocksNeverOverlap | software/usb_kb_bsp/HAL/src/alt_sbrk.c:68-136 | over every sequence of sbrk and slab requests all blocks handed out are pairwise disjoint and inside the heap |
| HeapSlab.BlocksAligned | software/usb_kb_bsp/HAL/src/alt_gmon.c:133-148 | if slab sizes are multiples of 4, every block is 4-aligned |
| HeapSlab.SbrkGrants | software/usb_kb_bsp/HAL/src/alt_sbrk.c:76-95 | a granted request is a fresh aligned block behind everything handed out; a refused one did not fit |
| HeapSlab.SliceInsideWhen | software/usb_kb_bsp/HAL/src/alt_gmon.c:133-148 | a slab block is inside the heap if and only if no new slab was needed or there is room for one |
| HeapSlab.SliceOutsideFullHeap | software/usb_kb_bsp/HAL/src/alt_gmon.c:137-147 | counterexample: in a heap too full for a slab the slice is handed out at the error value of sbrk |
| HeapSlab.SliceTakesFront | software/usb_kb_bsp/HAL/src/alt_gmon.c:137-147 | a slice is the front of what the slab has left, or of a fresh slab at the end of the heap just when that is too little; the rest is kept for the next |
| HeapSlab.SlicesShareSlab | software/usb_kb_bsp/HAL/src/alt_gmon.c:133-148 | slices that together fit what a slab has left all come from it, one behind the other, and the heap does not grow |
| HeapSlab.Heap.Extend | software/usb_kb_bsp/HAL/src/alt_sbrk.c:68-136 | sbrk as specified, with the end aligned even on refusal |
| HeapSlab.Heap.ClientSbrk | software/usb_kb_bsp/HAL/src/alt_sbrk.c:68-136 | each grant adds one aligned block to those handed out, each refusal none |
| HeapSlab.Heap.Allocate | software/usb_kb_bsp/HAL/src/alt_gmon.c:133-148 | each slab request adds exactly one block |
| GhostMovement.FollowsWalk | ghostMovement.sv:395-442 | from reset, for all inputs at every clock: every 32 clocks the registers stand at the next tile of a walk, in between on the straight way to it |
| GhostMovement.EdgesAreOpen | ghostMovement.sv:113-390 | every edge of the walk was reported open when it was chosen, if any was, and leads to the neighbouring tile; the k-th junction reads generation bit pair k mod 8 |
| GhostMovement.AlwaysOnePixel | ghostMovement.sv:436-440 | at every clock of every run exactly one coordinate changes, by one mod 1024, and some coordinate is a multiple of 32 |
| GhostMovement.ChosenIsOpen | ghostMovement.sv:113-390 | the turn logic chooses an open direction whenever there is one, else up |
| GhostMovement.PassagesGoBothWays | wallVerifiers.sv:12-83 | on the board a passage is open in both directions or in none |
| GhostMovement.WalkStaysInRing | ghostMovement.sv:395-442 | for all walls, even changing ones, a ghost that starts on the board or the ring of tiles around it never leaves them |
| GhostMovement.WalkComesBack | wallVerifiers.sv:94-200 | and one that starts on the board and leaves it is back one tile later |
| GhostMovement.PixelsStayInRing | ghostMovement.sv:420-445 | at every clock of such a run both coordinates are at most 416 |
| GhostMovement.WalkStaysOnBoard | wallVerifiers.sv:94-200 | on boards without a way out a ghost never leaves the twelve by twelve tiles, even if inner walls change |
| GhostMovement.PixelsStayOnBoard | ghostMovement.sv:420-445 | nor do its pixels |
| GhostMovement.StaysJustWhenNoWayOut | wallVerifiers.sv:94-200 | over standing walls every ghost that starts on the board stays there in every run if and only if there is no way out |
| GhostMovement.MazeHasWayOut | boundaryBank.sv:61-90 | the maze of the game has one: from its start tile a ghost can walk off to the right |
| GhostMovement.PursuitAtThreeWays | ghostMovement.sv:302-369 | at a three-way junction the step reduces the distance on the ring whenever some open direction would, if and only if it is not one of two exact half-turn cases |
| GhostMovement.ChoiceAtThreeWays | ghostMovement.sv:302-369 | within half a turn the ghost takes the arm without an opposite if and only if that leads nearer, else the left or upper of the two others if and only if that leads nearer, else the last |
| GhostMovement.ChoiceInEveryRun | ghostMovement.sv:302-369 | so it does at every three-way junction of every run from the board or the ring with the player below 512 |
| GhostMovement.PursuitFailsAtHalfTurn | ghostMovement.sv:302-369 | concrete inputs for both failures |
| GhostMovement.PursuitInEveryRun | ghostMovement.sv:302-369 | no run from the board or the ring meets them: with the player below 512 the ghost gets nearer at every three-way junction whenever some open direction would |
| GhostMovement.PursuitNearby | ghostMovement.sv:302-369 | with both differences below 512 the step always reduces the Manhattan distance whenever some open direction would |
| GhostMovement.PlaneIsRing | ghostMovement.sv:28-31 | with both differences below 512 the ring and the plane agree on distance and on what is nearer, where registers wrap too |
| GhostMovement.NearerWhen | ghostMovement.sv:57-90 | what the ten-bit comparisons say about getting nearer |
| GhostMovement.TurnsBackOnThree | ghostMovement.sv:134-301 | in corridors and corners a ghost turns back exactly when its generation bits say 3 |
| GhostMovement.WayBackIsOpen | wallVerifiers.sv:12-83 | over standing walls, whatever they are, the way a ghost came is open behind it in every run from a board tile with an opening |
| GhostMovement.TurnsBackInEveryRun | ghostMovement.sv:134-301 | in every such run the ghost turns back in a corridor or corner exactly when that junction's bits say 3 |
| GhostMovement.StartsOnThree | ghostMovement.sv:134-301 | a ghost just reset in a corridor or corner goes the first of the two open ways, in the order left, right, up, down, when its bits say 3, else the second |
| GhostMovement.CrossingFollowsBits | ghostMovement.sv:370-389 | at a full crossing the upper generation bit picks the axis and the lower one the side |
| GhostMovement.Ghost.constructor | ghostMovement.sv:422-431 | a ghost starts at the corner of its start tile |
| GhostMovement.Ghost.Reset | ghostMovement.sv:422-431 | reset starts a new run at the start tile |
| GhostMovement.Ghost.Clock | ghostMovement.sv:432-441 | each clock edge is one step of the run, by one pixel |

## Left out

- AlarmQueue.Queue.Start: excludes the interval 2^32 - 1, for which the promise is false; `TickArithmetic.StartedAlarmIsExact` says exactly when it holds. An alarm that is already listed is excluded too; the list would be corrupted.
- AlarmQueue.Queue.Stop: an alarm that was never started has null links in the source and must not be stopped; in the model it links to itself.
- AlarmQueue.Queue.Callback: a callback that starts the alarm it belongs to, whose reply would then be added to the new time; what callbacks do besides starting and stopping alarms; the callback and context fields.
- AlarmQueue.Queue.Tick: once the loop is lost the model stops watching and says so; `AlarmQueue.Queue.RunAdrift` says what happens from there.
- UartDriver.JtagUart.Read: a blocking call may wait forever; the model watches it for any number of looks and then says that it still waits.
- UartDriver.JtagUart.Write: likewise for a blocked write.
- UartDriver.JtagUart.Close: likewise for close waiting for the host.
- UartDriver.JtagUart.Irq: the byte written to the device data register appears as the history of bytes sent, not as a register access.
- DescriptorTable.LocksInEveryRun: drivers are taken not to touch descriptor flags; the private field of a descriptor is not modelled.
- FdTable.Descriptors.Fcntl: O_APPEND and O_NONBLOCK have the values of the C library, whose headers are not part of this model.
- LogPrintf.LogPrintf: field widths are unbounded; the overflow of a width beyond 2^31 is undefined in the source. Arguments that do not suit the format are excluded, being undefined as well.
- AltPrintf.PrintersAgree: formats with flags or with integer letters other than x are outside the common language.
- TimeOfDay.RunsExactly: the carry of the normalisation loops beyond the 32-bit seconds field, and wraps of the tick counter between setting and reading.
- HeapSlab.BlocksNeverOverlap: shrinking the heap with a negative increment, and the variants with ALT_MAX_HEAP_BYTES or stack checking.
- HeapSlab.Heap.Allocate: requests above the slab size of 1020, and what follows once a new slab was refused.
- GhostMovement.PursuitAtThreeWays: the player is taken to stand still for the clock of the decision.
- GhostMovement.Ghost.Clock: the registers posXTurnPrev and posYTurnPrev, which nothing reads, and the killPlayer comparison, a one-line fact.
- The small, multi-threaded and direct-driver variants of the UART driver and of the descriptor calls; the events that only an operating system waits for.
- Device lookup by name, the entries of the device lists, and reading and writing through descriptors.
- Log switches and the other logging functions around the log printer; polling of its UART.
- The histogram and call graph of the profiler beyond its slab allocator.
- USB enumeration, register pokes of the USB controller, C library stubs, DMA, flash, cache and start-up code: no state worth proving.
- Player movement, coins, game state, colour mapping, VGA timing and the other hardware modules: lookups and single registers.
