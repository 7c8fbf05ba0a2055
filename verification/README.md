# Verification of the DE0 Qsys software

Dafny models of the interrupt-driven drivers, the timer service and the USB test protocol of this
repository, with proofs. Everything is checked with `dafny verify dfyconfig.toml`.

Machine integers and options are in `Words`; `Schedules` says what happens between the accesses of a
routine.

## What is modelled

**JTAG UART** (`Ring`, `JtagModel`, `JtagSystem`, `JtagTheorems`, `JtagCalls`, `JtagDriver`). A
foreground writer and reader share two rings with an interrupt routine and no lock. Each access of the
foreground code to shared state is a step of a machine, in which interrupts, timer ticks and host
events come in between; the interrupt routine is atomic for the processor, but host events happen
before each of its register accesses. The device is the generated Verilog: 64-deep FIFOs, the
read and write interrupt conditions, dropping of writes to a full FIFO. `JtagDriver` holds the code
as it is written, updating one state structure; every method is shown to be a run of the machine,
so the theorems about all runs are theorems about it.

**Alarms** (`AlarmClock`, `AlarmTiming`, `AlarmService`). Deadlines of 32 bits with a one-bit
rollover flag, against deadlines on an unbounded clock; and the walk over the circular list on the
heap.

**USB test** (`HeaderMatch`, `UsbFormat`, `UsbExchange`, `UsbTheorems`, `UsbProgress`, `UsbLocal`,
`UsbController`, `UsbTest`, `UsbBridge`). The Nios program and the PC script as two step machines
over two lossless pipes of any positive depths, with an unbounded number of START retries, time-outs
of the PC at any point and failing writes of the Nios side. A write waits while its pipe is full, and
a START goes out byte by byte. `UsbTest` and `UsbController` hold the loops of the Nios program as
written; it records its accesses, and they are shown to be a run of the Nios half of the machine.
`UsbBridge` is the DATA register of the controller between the bus and its two FIFOs, cycle by cycle,
and says for which masters the pipes are lossless.

**Buffered UART, transmit side** (`UartTx`, `UartThrottle`, `UartCalls`, `UartDriver`). The same
treatment, with CTS free to change between any two register accesses of the interrupt routine.

**Interrupt nesting** (`IrqNesting`). A stack of dispatcher activations over the priority mask, the
enabled set and the enable register, as 32-bit words.

**Smaller cores**: the descriptor table from start-up on (`FdTable`), integer printing
(`IntPrint`), the time of day (`TimeOfDay`), `sbrk` and the profiler's slabs (`HeapSlabs`), cache flushing (`CacheFlush`).

## Where the code does less than it says

Most of these are stated as an exact condition, several with a run that shows the failure.

- `alt_alarm_start` with an interval of 2^32 - 1 ticks fires at the next tick unless the counter is
  at its maximum (`AlarmTiming.StartOnTimeExactly`, `AlarmTiming.WholeLapExpiresAtOnce`).
- The UART interrupt routine re-reads the status so that throttling cannot deadlock, but an edge of
  CTS that arrives between its reading and its clearing of the status is lost when the transmit
  interrupt was already off (`UartThrottle.AwakeIffEdgeKept`, `UartThrottle.StrandHappens`).
- The same routine writes the data register without looking at its own ready bit when it was
  called for a CTS change (`UartThrottle.OverrunExactly`, `UartThrottle.OverrunHappens`).
- `alt_fd_lock` promises exclusive access but its scan stops before the highest descriptor
  (`FdTable.LockIsExclusiveIff`, `FdTable.LockCanBeShared`), and closing one of the three standard
  descriptors does not release a lock. A standard descriptor gets one only if it has a device of its
  own, which none has in this build (`FdTable.CloseUnlocksIff`, `FdTable.StandardLockIff`,
  `FdTable.OwnConsoleStaysLocked`, `FdTable.OneConsoleIsNeverLocked`).
- `settimeofday` multiplies in 32 bits where `gettimeofday` uses 64 (`TimeOfDay.SetThenReadIff`).
- `alt_irq_enable` inside an interruptible section writes the enable register without the priority
  mask (`IrqNesting.ToggleKeepsIff`).
- The dispatcher reads the pending word once and searches it without a bound: if the request has
  gone away by then, the search never ends (`IrqNesting.SearchLoopEnds`,
  `IrqNesting.FirstSearchEndsIff`, `IrqNesting.WithdrawnRequestHangs`).
- The PC repeats START while the Nios may already be sending. If neither the rest of that START nor
  the packet fits in its pipe, both programs wait for each other until a time-out
  (`UsbProgress.CanFinishIff`). It takes more headers than fit in the pipe to the Nios plus one
  (`UsbProgress.DoomArisesIff`): the script's default time-out is too short for it
  (`UsbProgress.ScriptIsNeverDoomed`).
- The DATA register of the USB bridge repeats a byte, or drops one, for a master that starts its next
  DATA access in the cycle after the last (`UsbBridge.ReadIsNewIff`, `UsbBridge.WriteIsLostIff`).
  Nothing in the bus protocol forbids it; whether the processor does it depends on the generated
  interconnect, which is not part of this model.
- The streaming header matcher misses headers that overlap themselves
  (`HeaderMatch.MatcherExactIffSafe`); the three headers in use do not.
- The unrolled USB transfer loops do not end for lengths of 2^32 - 8 and more
  (`UsbController.UnrolledLoopEnds`), and the cache flushing loops not for regions at the very top of
  the address space (`CacheFlush.LoopEndsIff`).
- The comment on `sbrk` says that it performs no bounds checking; the code does check the limit.
- A JTAG UART write of length zero reports an error (EWOULDBLOCK or EIO), as does a read that asks
  for nothing.

## Model

| member | source | states |
|---|---|---|
| JtagTheorems.TransmitConserves | Qsys/software/usbserial_bsp/drivers/src/altera_avalon_jtag_uart_write.c:100-191 | in every interleaving of a write call with interrupts, timer ticks, reads and host events: what the host got, then the hardware FIFO, then the ring are exactly the accepted bytes in order, with all indices in range and the FIFO within its depth |
| JtagTheorems.ReceiveConserves | Qsys/software/usbserial_bsp/drivers/src/altera_avalon_jtag_uart_read.c:115-179 | in every interleaving: bytes delivered to readers, then the ring, then the hardware FIFO are everything the host sent, in order |
| JtagTheorems.NoLostWakeup | Qsys/software/usbserial_bsp/drivers/src/altera_avalon_jtag_uart_write.c:136-139 | in every reachable state the shadow word equals the control register; WE is clear only with an empty transmit ring or a writer that has published a block in this call and not yet reached its kick; RE is clear only with a full receive ring or a reader that has released a block and not yet reached its re-enable |
| JtagTheorems.WindowsAreExact | Qsys/software/usbserial_bsp/drivers/src/altera_avalon_jtag_uart_read.c:136-146 | those two windows open only at the step that publishes or releases a block and close only at the kick or the re-enable |
| JtagTheorems.WriterSpinSound | Qsys/software/usbserial_bsp/drivers/src/altera_avalon_jtag_uart_write.c:183-188 | the writer's spin test `out == tx_out` holds exactly when no byte has left the ring since its full snapshot, however many interrupts ran meanwhile |
| JtagTheorems.ReaderSpinSound | Qsys/software/usbserial_bsp/drivers/src/altera_avalon_jtag_uart_read.c:173-178 | the reader's spin test `in == rx_in` holds exactly when nothing has been stored since its empty snapshot |
| JtagTheorems.WriteReports | Qsys/software/usbserial_bsp/drivers/src/altera_avalon_jtag_uart_write.c:199-214 | a finished write call has appended exactly the reported prefix of its data to the accepted stream, or reports EWOULDBLOCK or EIO and has appended nothing; a blocking call falls short only if the host was seen inactive |
| JtagTheorems.ReadReports | Qsys/software/usbserial_bsp/drivers/src/altera_avalon_jtag_uart_read.c:197-202 | a finished read call returns exactly the bytes it appended to the delivered stream; a blocking call returns none only if the host was seen inactive |
| JtagTheorems.NothingStranded | Qsys/software/usbserial_bsp/drivers/src/altera_avalon_jtag_uart_init.c:117-196 | with no update half done, an interrupt leaves bytes in the transmit ring only behind a FIFO too full to ask for more, and a nearly full receive FIFO only behind a full ring |
| JtagTheorems.DrainRoundMoves | Qsys/software/usbserial_bsp/drivers/src/altera_avalon_jtag_uart_init.c:169-195 | one round of host drain and interrupt shrinks what waits in the transmit ring, until nothing waits |
| JtagTheorems.EveryByteReachesHost | Qsys/software/usbserial_bsp/drivers/src/altera_avalon_jtag_uart_init.c:169-195 | with no kick outstanding, as many such rounds as bytes wait deliver every accepted byte to the host, in order |
| JtagTheorems.EveryByteReachesRing | Qsys/software/usbserial_bsp/drivers/src/altera_avalon_jtag_uart_init.c:125-167 | after the host pauses, one interrupt leaves no received byte in the hardware FIFO unless the ring is full |
| JtagTheorems.PollTakes | Qsys/software/usbserial_bsp/drivers/src/altera_avalon_jtag_uart_read.c:115-197 | a read that does not wait and is not interrupted returns as many of the waiting bytes as it was asked for, in order, and receives and loses none |
| JtagTheorems.EveryByteReachesReader | Qsys/software/usbserial_bsp/drivers/src/altera_avalon_jtag_uart_read.c:115-197 | repeated rounds of host pause, interrupt and read bring a reader everything the host has sent, in order |
| JtagTheorems.HostByteReachesReader | Qsys/DE0Qsys/synthesis/submodules/DE0Qsys_jtag_uart.v:431-515 | a further byte that the host sends is the last one that such a reader gets if the receive FIFO has a free place, and changes nothing for it otherwise |
| JtagTheorems.SpinEndsIff | Qsys/software/usbserial_bsp/drivers/src/altera_avalon_jtag_uart_write.c:183-188 | a writer that spins while nothing leaves the ring gives up exactly when the timer has found the host silent for the time-out |
| JtagTheorems.ReadSpinEndsIff | Qsys/software/usbserial_bsp/drivers/src/altera_avalon_jtag_uart_read.c:173-178 | the same for a reader that spins while nothing is stored in the ring |
| JtagTheorems.TimerCounts | Qsys/software/usbserial_bsp/drivers/src/altera_avalon_jtag_uart_init.c:203-225 | in every run the inactivity count is the number of timer calls since the last that found the activity bit set, capped at INT_MAX - 2, and that call clears the bit |
| JtagTheorems.HostIsHeard | Qsys/DE0Qsys/synthesis/submodules/DE0Qsys_jtag_uart.v:431-515 | the activity bit is set when the host sends or pauses, and only the timer clears it |
| JtagTheorems.GivesUpIff | Qsys/software/usbserial_bsp/drivers/src/altera_avalon_jtag_uart_write.c:183-188 | a spinning writer or reader that looks at the count gives up exactly if the timer has since been called as often as the time-out says without finding the host active, and never without a timer |
| JtagTheorems.GivesUpOnlyThere | Qsys/software/usbserial_bsp/drivers/src/altera_avalon_jtag_uart_write.c:183-188 | a call starts out waiting, and nothing but its own look at the count while it spins makes it give up |
| JtagTheorems.PutIn | Qsys/software/usbserial_bsp/drivers/src/altera_avalon_jtag_uart_write.c:100-191 | a write that nothing comes between ends or waits with as many bytes accepted as fit in the ring |
| JtagTheorems.ReachableOk | Qsys/software/usbserial_bsp/drivers/src/altera_avalon_jtag_uart_init.c:66-100 | the invariant of ring, shadow word and program counters holds from initialisation on, in every run |
| JtagSystem.NextOk | Qsys/software/usbserial_bsp/drivers/src/altera_avalon_jtag_uart_write.c:100-191 | each single step of writer, reader, interrupt, timer or host preserves the invariant |
| JtagSystem.WPublishOk | Qsys/software/usbserial_bsp/drivers/src/altera_avalon_jtag_uart_write.c:122-126 | publishing a copied block appends exactly that block and overwrites no live slot, although the output index moved since the snapshot |
| JtagSystem.RReleaseOk | Qsys/software/usbserial_bsp/drivers/src/altera_avalon_jtag_uart_read.c:136-140 | releasing a copied block removes exactly the oldest bytes, although the input index moved since the snapshot |
| JtagModel.RxFillOk | Qsys/software/usbserial_bsp/drivers/src/altera_avalon_jtag_uart_init.c:132-154 | the receive loop pops a hardware byte only with a slot to store it in, keeps all bytes in order, reports bytes left behind only with a full ring, and under a quiet host stops only at an empty FIFO or a full ring |
| JtagModel.TxSendOk | Qsys/software/usbserial_bsp/drivers/src/altera_avalon_jtag_uart_init.c:172-184 | given no more space than the FIFO has, the transmit loop moves exactly the space it uses from the ring, in order, and has space left over only when the ring is empty |
| JtagModel.PassOk | Qsys/software/usbserial_bsp/drivers/src/altera_avalon_jtag_uart_init.c:117-196 | one pass of the interrupt loop keeps everything the foreground relies on and, when the host is quiet, uses up work, so that the loop terminates |
| JtagModel.IrqOk | Qsys/software/usbserial_bsp/drivers/src/altera_avalon_jtag_uart_init.c:106-197 | the interrupt routine, with host events before every register access, keeps everything the foreground relies on and returns with no request left to serve |
| JtagModel.IrqEmptiesFifo | Qsys/software/usbserial_bsp/drivers/src/altera_avalon_jtag_uart_init.c:125-167 | with a quiet host, an interrupt that reports received bytes leaves none that it could have stored |
| JtagModel.IrqSends | Qsys/software/usbserial_bsp/drivers/src/altera_avalon_jtag_uart_init.c:169-195 | an enabled transmit interrupt moves bytes whenever the FIFO is nearly empty |
| JtagModel.HwRunOk | Qsys/DE0Qsys/synthesis/submodules/DE0Qsys_jtag_uart.v:431-515 | host events move bytes between the host and the FIFOs without losing any, never fill the transmit FIFO and never empty the receive FIFO |
| JtagDriver.JtagUart.Init | Qsys/software/usbserial_bsp/drivers/src/altera_avalon_jtag_uart_init.c:66-100 | after initialisation the object is in an initial state of the machine, and without an alarm the time-out is INT_MAX |
| JtagDriver.JtagUart.Interrupt | Qsys/software/usbserial_bsp/drivers/src/altera_avalon_jtag_uart_init.c:106-197 | the interrupt routine in place on the state structure is the machine's interrupt step |
| JtagDriver.JtagUart.Timeout | Qsys/software/usbserial_bsp/drivers/src/altera_avalon_jtag_uart_init.c:203-225 | the timer callback in place on the state structure is the machine's timer step, whose meaning JtagTheorems.TimerCounts gives |
| JtagDriver.JtagUart.CountIsSilence | Qsys/software/usbserial_bsp/drivers/src/altera_avalon_jtag_uart_init.c:203-225 | over the whole history of an object `host_inactive` is the number of timer calls since the last that found the host active, capped at INT_MAX - 2 |
| JtagDriver.JtagUart.Write | Qsys/software/usbserial_bsp/drivers/src/altera_avalon_jtag_uart_write.c:83-215 | the write routine is one call of the machine with its steps, between which exactly the schedule happens: exactly the reported prefix is accepted, a blocking call falls short only if the host was seen to be inactive, and it waits for ever only with the schedule used up, a full ring and an active host; left alone it accepts what fits and reports it |
| JtagDriver.JtagUart.Read | Qsys/software/usbserial_bsp/drivers/src/altera_avalon_jtag_uart_read.c:100-203 | the read routine is one call of the machine with its steps, between which exactly the schedule happens: the buffer holds exactly the next bytes delivered, and it waits for ever only as a blocking call with the schedule used up, an empty ring and an active host; left alone it takes the waiting bytes that were asked for and reports them |
| JtagDriver.JtagUart.Close | Qsys/software/usbserial_bsp/drivers/src/altera_avalon_jtag_uart_init.c:241-254 | close returns 0 exactly if the ring is empty or the host inactive when it looks, EWOULDBLOCK after one look to a caller that will not wait, and otherwise waits until the schedule is used up |
| JtagDriver.JtagUart.constructor | Qsys/software/usbserial_bsp/drivers/src/altera_avalon_jtag_uart_init.c:66-100 | a new object has empty rings, no interrupts enabled and the default time-out |
| Ring.PublishBlock | Qsys/software/usbserial_bsp/drivers/src/altera_avalon_jtag_uart_write.c:122-126 | advancing the input index over prepared slots appends the block, across the wrap |
| Ring.ConsumeBlock | Qsys/software/usbserial_bsp/drivers/src/altera_avalon_jtag_uart_read.c:136-140 | advancing the output index removes exactly the oldest block |
| Ring.Pop | Qsys/software/usbserial_bsp/drivers/src/altera_avalon_uart_init.c:239-241 | advancing the output index by one removes the oldest element |
| AlarmTiming.AlarmsAreOnTime | Qsys/software/usbserial_bsp/HAL/src/alt_tick.c:96-138 | an alarm started with an interval that its record can hold (k < 2^32 - 1, or the counter at its maximum) fires first at exactly the (k+1)-th later tick, then exactly p ticks after each firing answered by p > 0, and never after one answered by 0: no drift, early or missed firing over any run and any number of wraps, whatever other alarms are in the list or come and go |
| AlarmTiming.OnTimeFromReset | Qsys/software/usbserial_bsp/HAL/src/alt_tick.c:96-138 | the same after any run from reset, with no condition on the other alarms |
| AlarmTiming.StartOnTimeExactly | Qsys/software/usbserial_bsp/HAL/src/alt_alarm_start.c:80-96 | the first expiry is exactly k+1 ticks after the start if and only if k < 2^32 - 1 or the counter stands at its maximum |
| AlarmTiming.WholeLapExpiresAtOnce | Qsys/software/usbserial_bsp/HAL/src/alt_alarm_start.c:80-96 | an alarm started with k = 2^32 - 1 expires at the very next tick exactly if the counter is not at its maximum |
| AlarmTiming.FiresOnSchedule | Qsys/software/usbserial_bsp/HAL/src/alt_tick.c:115-139 | the log of a run of the 32-bit service contains a firing of an alarm that stands for a deadline at exactly the ticks of its schedule |
| AlarmClock.RunsAgree | Qsys/software/usbserial_bsp/HAL/src/alt_tick.c:87-141 | over every run of starts, stops and ticks, with intervals that the records can hold, the 32-bit records with their rollover bit fire the same alarms in the same order as unbounded deadlines |
| AlarmClock.StepAgrees | Qsys/software/usbserial_bsp/HAL/src/alt_tick.c:87-141 | each single start, stop or tick keeps that correspondence |
| AlarmClock.StartMatches | Qsys/software/usbserial_bsp/HAL/src/alt_alarm_start.c:80-96 | the record computed at the start stands for the deadline now + k + 1, the rollover bit saying whether it is in the next lap |
| AlarmClock.TickOneMatches | Qsys/software/usbserial_bsp/HAL/src/alt_tick.c:109-139 | one alarm at one tick: expiry, removal and re-arming are those of the unbounded deadline |
| AlarmClock.TickSelects | Qsys/software/usbserial_bsp/HAL/src/alt_tick.c:100-141 | the alarms left by a tick are those of the list, in order, without the expired ones whose callback answered 0; those called are exactly the expired ones, in list order |
| AlarmClock.TickDropsExactly | Qsys/software/usbserial_bsp/HAL/src/alt_tick.c:100-141 | an alarm leaves the list at a tick exactly if it was called and answered 0; nobody is called twice |
| AlarmService.Insert | Qsys/software/usbserial_bsp/HAL/inc/sys/alt_llist.h:90-98 | the pointer updates put the entry first and keep a circular doubly linked list |
| AlarmService.Remove | Qsys/software/usbserial_bsp/HAL/inc/sys/alt_llist.h:105-117 | the pointer updates take out exactly the entry, leave it linked to itself, and removing it again changes nothing |
| AlarmService.Service.Start | Qsys/software/usbserial_bsp/HAL/src/alt_alarm_start.c:64-112 | starting registers the alarm first in the list with the computed record, or reports why not and changes nothing |
| AlarmService.Service.Stop | Qsys/software/usbserial_bsp/HAL/src/alt_tick.c:66-73 | stopping removes exactly that alarm; stopping one that is not registered is harmless |
| AlarmService.Service.Consider | Qsys/software/usbserial_bsp/HAL/src/alt_tick.c:109-139 | one alarm on the walk is updated, re-armed or unlinked as the record function says |
| AlarmService.Service.Tick | Qsys/software/usbserial_bsp/HAL/src/alt_tick.c:87-141 | the walk over the heap list terminates, considers every registered alarm once and leaves a well-formed list holding what the specification says |
| UsbTheorems.ExchangeIsCorrect | Qsys/software/usbserial/usbserialtest.c:248-279 | for any payloads, any pipe depths, any number of START retries and any interleaving: when both sides end, both payloads arrived intact and the Nios passes; the PC passes exactly if twelve bytes of the reply were written in its first piece and as many read; in particular if all writes of the reply went through and the PC read on to the newline |
| UsbTheorems.PcVerdictIsRight | tools/test_usb_crc_bidirectional.py:164-181 | whenever the PC ends it has the Nios payload; its verdict is PASS exactly when the first piece of the reply got out through its first twelve bytes and twelve bytes were read, and then the Nios has the PC payload |
| UsbTheorems.TimeOutEnds | tools/test_usb_crc_bidirectional.py:36-178 | a time-out of the PC ends it in every reachable state, with a verdict only if it was waiting for the reply: PASS exactly if the verdict word got out and had been read |
| UsbTheorems.ReceivesPrefixes | Qsys/software/usbserial/usbserialtest.c:189-218 | in every reachable state each side has received a prefix of the other's payload: leftover START bytes never shift the packet |
| UsbTheorems.VerdictIs | tools/test_usb_crc_bidirectional.py:178 | for every payload and received checksum: the word looked for occurs in what arrived of the reply exactly when the checksum is right and the first piece got out through its twelfth byte and twelve bytes arrived |
| UsbTheorems.ReplyReadsBack | Qsys/software/usbserial/usbserialtest.c:238-244 | a reply that got out whole holds the verdict text with the number of payload bytes, the computed and the received checksum in hexadecimal, and the line end, each at its place |
| UsbTheorems.CorruptedFails | Qsys/software/usbserial/usbserialtest.c:229-246 | a packet with one byte of its payload changed passes on neither side |
| UsbFormat.HexReadsBack | Qsys/software/usbserial/avbusbctrl.c:179-193 | the two digits of a checksum read back as its value |
| UsbFormat.ChecksumLaws | tools/test_usb_crc_bidirectional.py:20-21 | the checksum of nothing is 0, of one byte the byte, and of a concatenation the sum modulo 256 |
| UsbFormat.ChangeIsCaught | tools/test_usb_crc_bidirectional.py:20-21 | changing one byte, at any place and to any other value, changes the checksum |
| UsbTheorems.HeadersAreExact | Qsys/software/usbserial/usbserialtest.c:12-14 | the matcher finds the first occurrence of each of the three headers in every stream |
| UsbTheorems.RunKeeps | Qsys/software/usbserial/usbserialtest.c:112-246 | the invariant of both programs and both pipes holds over every run |
| UsbExchange.NextKeeps | Qsys/software/usbserial/usbserialtest.c:112-246 | each single step of either side, a retry or a time-out preserves it |
| UsbExchange.TakeOk | Qsys/software/usbserial/usbserialtest.c:170-183 | reading one byte keeps the matcher at zero through leftover START bytes and in step with the packet after them |
| UsbExchange.PcTakesOneKeeps | tools/test_usb_crc_bidirectional.py:47-64 | the PC's matcher and checksum read keep in step with what the Nios has sent |
| UsbProgress.CanFinishIff | tools/test_usb_crc_bidirectional.py:41-69 | over pipes of any positive depths, while nobody has given up: the exchange can be completed without anybody giving up if and only if the PC is not inside a START that does not fit in its pipe while the Nios has a packet that does not fit in the other |
| UsbProgress.DoomedForEver | tools/test_usb_crc_bidirectional.py:41-69 | once in that circle no run without a time-out leaves it |
| UsbProgress.DoomArisesIff | tools/test_usb_crc_bidirectional.py:41-52 | with at most r START headers the circle can be reached exactly if the pipe to the PC is shallower than the Nios packet and the other one does not hold r - 1 headers |
| UsbProgress.ScriptIsNeverDoomed | tools/test_usb_crc_bidirectional.py:41-52 | with the 61 headers that fit in the default time-out and a FIFO of 1024 bytes no run reaches it |
| UsbProgress.Productive | tools/test_usb_crc_bidirectional.py:41-69 | in every other state in which somebody is not finished some step uses up a bounded measure; when both sides wait it is the first START |
| UsbProgress.ExchangeCanPass | Qsys/software/usbserial/usbserialtest.c:248-279 | from every reachable state in which nobody has given up, no write of the reply has failed and the circle is not closed, the start among them, some run delivers both payloads and passes on both sides |
| UsbLocal.AccessIsStep | Qsys/software/usbserial/usbserialtest.c:112-246 | an access of the Nios program on its own is, in every state of the whole system in which it is possible, the Nios step with the same effect on program and pipes |
| UsbLocal.RunsProject | Qsys/software/usbserial/usbserialtest.c:112-246 | what the Nios does in any run of the system is a sequence of such accesses, whose bytes are those it took from the one pipe and those in the other |
| HeaderMatch.MatcherExactIffSafe | Qsys/software/usbserial/usbserialtest.c:170-183 | the streaming matcher stops exactly at the end of the header's first occurrence, in every stream, if and only if no mismatch can leave a partial match of two or more bytes |
| HeaderMatch.MatchedIsLongest | Qsys/software/usbserial/usbserialtest.c:177-182 | until the header is complete, `matched` is the longest header prefix that ends the bytes read |
| HeaderMatch.UniqueFirstByteIsSafe | Qsys/software/usbserial/usbserialtest.c:177-182 | a header whose first byte does not recur in it meets that condition |
| HeaderMatch.UnsafeMisses | Qsys/software/usbserial/usbserialtest.c:180-182 | for a header that violates it, a stream that ends with the header and is not recognised |
| HeaderMatch.FindHeader | tools/test_usb_crc_bidirectional.py:41-69 | the matching loop computes the specified position, and otherwise has read everything |
| UsbBridge.BridgeIsLossless | ip/AvbusbCtrl.v:220-352 | for a master that keeps a request up while told to wait and leaves a cycle after each DATA access: in every run from reset, however the USB side moves and however late either end of a FIFO sees the other, the bytes taken by the host, in the FIFO and on the way are the bytes written, and the bytes read are the first the host sent, each once and in order |
| UsbBridge.ReadIsNewIff | ip/AvbusbCtrl.v:302-311 | without that gap: a finished DATA read hands over a new byte exactly if `read` was low at some time since the previous one finished, and otherwise repeats the register |
| UsbBridge.WriteIsLostIff | ip/AvbusbCtrl.v:313-322 | without that gap: an accepted byte is dropped exactly if the one before it was still on its way to the last free slot and no other slot was seen to become free in between |
| UsbBridge.BackToBackReadRepeats | ip/AvbusbCtrl.v:302-311 | three cycles from reset in which two DATA reads return the same byte |
| UsbBridge.BackToBackWriteLoses | ip/AvbusbCtrl.v:313-322 | a run from reset, for every depth, in which one byte more than the depth is accepted and one of them is dropped |
| UsbBridge.ReadEndsNext | ip/AvbusbCtrl.v:302-311 | a DATA read that finds a byte in sight ends in the next cycle at the latest, whatever happens in between |
| UsbBridge.HostLetsThrough | ip/AvbusbCtrl.v:220-352 | from every state, once the host has taken a byte and sent one and both have crossed over, the next DATA write and the next DATA read get through |
| UsbBridge.WriteEndsIff | ip/AvbusbCtrl.v:285-322 | in every run of 128 cycles or more from reset with a patient master, a DATA write ends at once exactly if a slot is seen free |
| UsbBridge.WarmAfter | ip/AvbusbCtrl.v:285-287 | the bridge accepts DATA writes from 128 cycles after reset on, whatever the bus does |
| UsbBridge.EdgeKeeps | ip/AvbusbCtrl.v:220-352 | with any patient master a staged byte is the oldest one received, and its read is the one in progress |
| UsbTest.Program.WaitForHeader | Qsys/software/usbserial/usbserialtest.c:159-187 | the same for the Nios side, on the bytes still to come; its reads are the accesses of the step machine that waits for that header |
| UsbTest.Program.SendPacket | Qsys/software/usbserial/usbserialtest.c:112-157 | header, payload in batches of 128 and checksum go out in order; how far, and after how many status reads, is decided by what STATUS shows; a failing checked write ends the packet exactly there; the writes are the accesses of the step machine that sends the packet |
| UsbTest.Program.ReceivePacket | Qsys/software/usbserial/usbserialtest.c:189-246 | the buffer holds the 10000 bytes after the header, PASS exactly when the next byte is their checksum, and the reply consists of the prefixes of its five pieces that STATUS lets out; it contains the verdict word exactly if the outcome is PASS and twelve bytes of the first piece got out; all as accesses of the step machine |
| UsbTest.Program.SendReply | Qsys/software/usbserial/usbserialtest.c:238-244 | the five pieces of the reply, each up to its first failing write as STATUS decides, as accesses of the step machine; the verdict word is among them exactly if the checksums agree and twelve bytes of the first piece got out |
| UsbTest.Program.RunTest | Qsys/software/usbserial/usbserialtest.c:248-279 | on the stream the PC sends, after any number of retries, the program receives the PC's payload and passes unless a checked write of its own fails, which none does if STATUS never shows an error or a full FIFO; its recorded accesses are a run of the Nios machine that ends in the state of the outcome |
| UsbTest.HeadersFound | Qsys/software/usbserial/usbserialtest.c:170-183 | both headers are found at their places after any number of retries |
| UsbTest.FillRandom | Qsys/software/usbserial/usbserialtest.c:26-38 | the buffer holds the generator's bytes and the 32-bit running sum gives their checksum |
| UsbTest.CalcCrc | Qsys/software/usbserial/usbserialtest.c:40-50 | the wrapping 32-bit sum gives the low byte of the true sum |
| UsbTest.CrcLowByte | tools/test_usb_crc_bidirectional.py:20-21 | the PC's checksum, the low byte of the unbounded sum, is the same function |
| UsbTest.PayloadBegins | Qsys/software/usbserial/usbserialtest.c:20-24 | the first four bytes drawn from the seed of the Nios packet |
| UsbTest.NextStateIsInjective | Qsys/software/usbserial/usbserialtest.c:20-24 | different generator states have different successors |
| UsbTest.RandomBytesInRange | Qsys/software/usbserial/usbserialtest.c:20-24 | every generated byte lies in 1..255 |
| UsbTest.WriteInChunks | tools/test_usb_crc_bidirectional.py:87-97 | the chunks make up the data, for every chunk size |
| UsbController.Controller.WriteByte | Qsys/software/usbserial/avbusbctrl.c:73-106 | one byte is emitted exactly if success is reported; which it is, and the number of status reads, is the polling function's |
| UsbController.Controller.ClearErrorsAndWait | Qsys/software/usbserial/avbusbctrl.c:49-66 | at most sixteen clearing attempts, each followed by a status read, and a last read if all fail |
| UsbController.WriteByteCost | Qsys/software/usbserial/avbusbctrl.c:73-106 | one byte costs at most 1000000 + 16*17 + 1 status reads |
| UsbController.WriteByteCostIsTight | Qsys/software/usbserial/avbusbctrl.c:73-106 | a hardware behaviour that attains this bound |
| UsbController.SucceedsIffRoom | Qsys/software/usbserial/avbusbctrl.c:83-102 | without errors the byte goes out exactly if the FIFO has room at one of the million polls |
| UsbController.WriteByteSucceedsIff | Qsys/software/usbserial/avbusbctrl.c:73-106 | with errors: the byte goes out exactly if among the first million polls one shows neither an error nor a full FIFO and at most sixteen polls before it show an error, the polls being at the reads that the clearing leaves for them |
| UsbController.StopsAtFirst | Qsys/software/usbserial/avbusbctrl.c:93-98 | and the call ends with the first such poll |
| UsbController.OneErrorIsCleared | Qsys/software/usbserial/avbusbctrl.c:84-92 | an error that clears at once with room behind it: success in three reads |
| UsbController.ClearedIsFirst | Qsys/software/usbserial/avbusbctrl.c:49-66 | the clearing reads end with the first that shows no error or with the seventeenth |
| UsbController.Controller.WriteBytes | Qsys/software/usbserial/avbusbctrl.c:108-128 | the eight-way unrolled loop sends data[0..length) in order |
| UsbController.Controller.ReadBytes | Qsys/software/usbserial/avbusbctrl.c:140-160 | the unrolled read fills the buffer with the next bytes in order and nothing beside |
| UsbController.UnrolledLoopEnds | Qsys/software/usbserial/avbusbctrl.c:112-112 | in 32-bit arithmetic the unrolled loop comes to an end exactly for lengths below 2^32 - 8 |
| UsbController.Controller.WriteText | Qsys/software/usbserial/avbusbctrl.c:167-177 | a text goes out up to its first failing byte, all of it exactly on success; how far is decided by the byte writes one after the other |
| UsbController.Controller.WriteHexByte | Qsys/software/usbserial/avbusbctrl.c:185-193 | two upper-case digits, high one first, up to the first failure |
| UartTx.TransmitConserves | Qsys/software/usbserial_bsp/drivers/src/altera_avalon_uart_write.c:152-207 | in every interleaving of the writer's statements with interrupts and line changes: bytes handed to the device, then the ring, are the accepted bytes in order, and these are what earlier calls accepted and a prefix of this call's data |
| UartTx.NothingUncovered | Qsys/software/usbserial_bsp/drivers/src/altera_avalon_uart_write.c:221-225 | bytes in the ring outside the writer's update-to-enable window have the CTS-change interrupt enabled, and the transmit interrupt too without flow control |
| UartTx.WindowIsShort | Qsys/software/usbserial_bsp/drivers/src/altera_avalon_uart_write.c:205-225 | that window is never open between calls or while a call waits for room |
| UartTx.SpinTestIsExact | Qsys/software/usbserial_bsp/drivers/src/altera_avalon_uart_write.c:183-197 | the writer waits exactly while all but one of the 64 slots are filled |
| UartTx.NextOk | Qsys/software/usbserial_bsp/drivers/src/altera_avalon_uart_init.c:207-283 | every step of writer, interrupt and line preserves the invariant |
| UartTx.HandOverOk | Qsys/software/usbserial_bsp/drivers/src/altera_avalon_uart_init.c:237-241 | the interrupt hands over the oldest byte and nothing else |
| UartThrottle.AwakeIffEdgeKept | Qsys/software/usbserial_bsp/drivers/src/altera_avalon_uart_init.c:122-127 | an interrupt leaves waiting bytes with an interrupt to come if and only if it does not lose a rising edge of CTS between reading and clearing the status while the transmit interrupt is off |
| UartThrottle.AwakeIffAsked | Qsys/software/usbserial_bsp/drivers/src/altera_avalon_uart_init.c:122-127 | an interrupt is still to come for waiting bytes exactly if the device asks for one once it has room and CTS has risen |
| UartThrottle.ThrottlingStrandsNothing | Qsys/software/usbserial_bsp/drivers/src/altera_avalon_uart_init.c:249-270 | over whole runs without such a lost edge, throttling strands no byte |
| UartThrottle.StrandHappens | Qsys/software/usbserial_bsp/drivers/src/altera_avalon_uart_init.c:254-270 | a reachable state, with flow control, in which a byte is stranded although CTS is high and the device has room |
| UartThrottle.StrandedStaysSilent | Qsys/software/usbserial_bsp/drivers/src/altera_avalon_uart_init.c:254-270 | from there the device asks for no interrupt until the line moves |
| UartThrottle.WriterWakes | Qsys/software/usbserial_bsp/drivers/src/altera_avalon_uart_write.c:221-225 | the end of any write call repairs it |
| UartThrottle.NoFlowControlNoStrand | Qsys/software/usbserial_bsp/drivers/src/altera_avalon_uart_init.c:218-247 | without flow control nothing is ever stranded |
| UartThrottle.OverrunExactly | Qsys/DE0Qsys/synthesis/submodules/DE0Qsys_uart0.v:87-108 | a byte is written to an occupied data register exactly when the interrupt came for a CTS change alone and no byte was shifted out before the write |
| UartThrottle.OverrunHappens | Qsys/software/usbserial_bsp/drivers/src/altera_avalon_uart_init.c:218-247 | a reachable state, with flow control and without, in which both accepted bytes were handed over and one of them met an occupied register |
| UartThrottle.StillLineNeverOverruns | Qsys/DE0Qsys/synthesis/submodules/DE0Qsys_uart0.v:680-681 | while CTS does not move, as in the instance generated here, no run writes a byte to an occupied data register |
| UartThrottle.InterruptsDrain | Qsys/software/usbserial_bsp/drivers/src/altera_avalon_uart_init.c:207-283 | with the line high, interrupts alone send every accepted byte in order |
| UartThrottle.InterruptSends | Qsys/software/usbserial_bsp/drivers/src/altera_avalon_uart_init.c:211-247 | each interrupt that finds room hands over exactly the oldest byte |
| UartThrottle.EmptyRingIsQuiet | Qsys/software/usbserial_bsp/drivers/src/altera_avalon_uart_init.c:276-282 | after an interrupt that emptied the ring the device asks for no further transmit interrupt |
| UartThrottle.ThrottledIsQuiet | Qsys/software/usbserial_bsp/drivers/src/altera_avalon_uart_init.c:249-269 | while CTS stays low the device is not asked to send and raises no interrupt either |
| UartDriver.Uart.IrqHandler | Qsys/software/usbserial_bsp/drivers/src/altera_avalon_uart_init.c:107-145 | the interrupt routine in place is the machine's interrupt step |
| UartDriver.Uart.TransmitHandler | Qsys/software/usbserial_bsp/drivers/src/altera_avalon_uart_init.c:206-283 | the transmit part in place on indices, buffer and enable word |
| UartDriver.Uart.Write | Qsys/software/usbserial_bsp/drivers/src/altera_avalon_uart_write.c:123-230 | the write routine is one call of the machine with its steps, between which exactly the schedule happens: exactly the reported prefix is accepted, all of it for a blocking caller, who waits for ever only with the schedule used up and a full ring; left alone it accepts what fits and reports it |
| IrqNesting.NestingIsOrdered | Qsys/software/usbserial_bsp/HAL/inc/priv/alt_legacy_irq.h:118-149 | over every run of bracketed routines in which interrupts are switched on and off only below the mask: the numbers of routines in progress strictly decrease inwards and IENABLE is the enabled set under the priority mask |
| IrqNesting.BracketRestores | Qsys/software/usbserial_bsp/HAL/inc/priv/alt_legacy_irq.h:139-149 | closing a bracket restores mask and IENABLE, whatever happened inside, if the enabled set is what it was |
| IrqNesting.BracketLetsInLower | Qsys/software/usbserial_bsp/HAL/inc/priv/alt_legacy_irq.h:118-134 | inside the bracket of routine p an enabled interrupt i that becomes pending is taken exactly if i < p |
| IrqNesting.ToggleKeepsIff | Qsys/software/usbserial_bsp/HAL/inc/priv/alt_legacy_irq.h:68-99 | switching an interrupt keeps the bookkeeping exactly if no enabled interrupt is above the mask in force; outside every bracket that is always so |
| IrqNesting.ToggleChangesOne | Qsys/software/usbserial_bsp/HAL/inc/priv/alt_legacy_irq.h:68-99 | switching an interrupt on or off changes its bit of the enabled set and no other |
| IrqNesting.EnableInBracketBreaksOrder | Qsys/software/usbserial_bsp/HAL/inc/priv/alt_legacy_irq.h:86-99 | a run in which enabling an interrupt inside a bracket lets a lower-priority interrupt preempt |
| IrqNesting.DepthIsBounded | Qsys/software/usbserial_bsp/HAL/inc/priv/alt_legacy_irq.h:118-134 | at most 33 activations are ever nested |
| IrqNesting.DispatchIsLowest | Qsys/software/usbserial_bsp/HAL/src/alt_irq_handler.c:130-152 | the dispatcher starts the routine of the lowest pending number |
| IrqNesting.LeavesIffNonePending | Qsys/software/usbserial_bsp/HAL/src/alt_irq_handler.c:150-159 | back from a routine, the dispatcher lets go of the processor exactly if no enabled interrupt is pending, and otherwise goes on with the lowest one |
| IrqNesting.SearchLoopEnds | Qsys/software/usbserial_bsp/HAL/src/alt_irq_handler.c:130-152 | the unbounded mask-shifting loop finds a set bit in some iteration exactly if the word read before it is not zero |
| IrqNesting.FirstSearchEndsIff | Qsys/software/usbserial_bsp/HAL/src/alt_irq_handler.c:128-152 | an activation gets past its first search, in some run, exactly if an interrupt is still pending when it reads the word |
| IrqNesting.WithdrawnRequestHangs | Qsys/software/usbserial_bsp/HAL/src/alt_irq_handler.c:128-152 | a run from the start in which the request goes away after the interrupt was taken: the processor stays in the search whatever happens next |
| IrqNesting.FindLowest | Qsys/software/usbserial_bsp/HAL/src/alt_irq_handler.c:132-152 | the mask-shifting loop arrives at the lowest set bit |
| IrqNesting.NextOk | Qsys/software/usbserial_bsp/HAL/inc/priv/alt_legacy_irq.h:68-149 | every disciplined step preserves the invariant of stack, mask and registers |
| IrqNesting.Controller.OpenBracket | Qsys/software/usbserial_bsp/HAL/inc/priv/alt_legacy_irq.h:118-134 | the bracket-opening function in place |
| IrqNesting.Controller.CloseBracket | Qsys/software/usbserial_bsp/HAL/inc/priv/alt_legacy_irq.h:139-149 | the bracket-closing function in place |
| IrqNesting.Controller.Enable | Qsys/software/usbserial_bsp/HAL/inc/priv/alt_legacy_irq.h:86-99 | enabling one interrupt in place, with the global enable restored |
| IrqNesting.Controller.Disable | Qsys/software/usbserial_bsp/HAL/inc/priv/alt_legacy_irq.h:68-81 | disabling one interrupt in place, with the global enable restored |
| FdTable.LockExcludes | Qsys/software/usbserial_bsp/HAL/src/alt_open.c:79-87 | from the moment a lock is held until its holder gives it up, no run of opens, requests, closes and redirections adds a descriptor to the device |
| FdTable.OpenWhileHeld | Qsys/software/usbserial_bsp/HAL/src/alt_open.c:64-92 | while some descriptor holds a device, opening that device fails |
| FdTable.OpenFailsIff | Qsys/software/usbserial_bsp/HAL/src/alt_open.c:105-171 | open fails exactly for a missing target, a full table, a held device or a driver's refusal, and a failure leaves every entry as it was |
| FdTable.OpenReports | Qsys/software/usbserial_bsp/HAL/src/alt_open.c:105-171 | the error number of a failed open: no target, no slot, a held device, the driver's refusal, in this order |
| FdTable.OpenKeepsFlags | Qsys/software/usbserial_bsp/HAL/src/alt_open.c:139-139 | every flag of the caller's but the two that the table uses is in the new entry |
| FdTable.OpenIsLowest | Qsys/software/usbserial_bsp/HAL/src/alt_get_fd.c:77-89 | open returns the lowest free descriptor, as section 2.14 of POSIX.1-2017 System Interfaces asks, unlocked, bound to the target, with the caller's flags, and marked as a device exactly if it is one |
| FdTable.MarkIsHighEnough | Qsys/software/usbserial_bsp/HAL/src/alt_get_fd.c:81-85 | in every table reachable by opens, requests, closes and redirections, allocated descriptors from 3 up are at most `alt_max_fd`, free ones are blank, the standard ones are never free |
| FdTable.LockGrantsIffUnshared | Qsys/software/usbserial_bsp/HAL/src/alt_fd_lock.c:54-75 | the lock is granted exactly if no other descriptor below `alt_max_fd` refers to the device |
| FdTable.LockIsExclusiveIff | Qsys/software/usbserial_bsp/HAL/src/alt_fd_lock.c:61-68 | a granted lock is exclusive exactly if no other descriptor of the device lies at or above `alt_max_fd` |
| FdTable.UnlockUndoesLockIff | Qsys/software/usbserial_bsp/HAL/src/alt_fd_unlock.c:52-56 | unlocking undoes a granted lock exactly if the descriptor was not locked before |
| FdTable.GivesUpLock | Qsys/software/usbserial_bsp/HAL/src/alt_ioctl.c:134-137 | after the request to give a lock up the descriptor holds nothing and is otherwise as it was, and if nobody else holds the device and a slot is free it can be opened again |
| FdTable.LockCanBeShared | Qsys/software/usbserial_bsp/HAL/src/alt_fd_lock.c:61-61 | once main runs, two opens of a device other than the console, after which a lock is asked for, granted and not exclusive |
| FdTable.CloseUnlocksIff | Qsys/software/usbserial_bsp/HAL/src/alt_release_fd.c:44-51 | closing gives up a lock exactly for descriptors above 2 |
| FdTable.CloseFrees | Qsys/software/usbserial_bsp/HAL/src/alt_close.c:64-101 | a close frees its descriptor if it is above 2, even when the driver reports an error, touches no other, and reports that error |
| FdTable.StandardLockIff | Qsys/software/usbserial_bsp/HAL/src/alt_ioctl.c:127-138 | once start-up is over, some run of a program ends with a standard descriptor holding a lock if and only if that descriptor is a device's and neither of the other two is the same device's |
| FdTable.OneConsoleIsNeverLocked | Qsys/software/usbserial_bsp/system.h:155-172 | with one device for input, output and errors, as in this build, no run of a program after the redirection ever gives a standard descriptor a lock |
| FdTable.OwnConsoleStaysLocked | Qsys/software/usbserial_bsp/HAL/src/alt_release_fd.c:44-51 | a standard descriptor with a device of its own is granted a lock, keeps it when it is closed, and its device can then not be opened any more |
| FdTable.AtMainIs | Qsys/software/usbserial_bsp/HAL/src/alt_io_redirect.c:58-94 | when main starts, the three redirections from the null device have succeeded: each standard descriptor is an unlocked copy of an opened one, nothing else is open, and `alt_max_fd` is 3 |
| FdTable.Files.Open | Qsys/software/usbserial_bsp/HAL/src/alt_open.c:105-171 | open in place on the table |
| FdTable.Files.FileLocked | Qsys/software/usbserial_bsp/HAL/src/alt_open.c:64-92 | the lock scan in place: it marks the descriptor as a device and refuses exactly if another one holds it |
| FdTable.Files.GetFd | Qsys/software/usbserial_bsp/HAL/src/alt_get_fd.c:54-101 | the search loop in place |
| FdTable.Files.Lock | Qsys/software/usbserial_bsp/HAL/src/alt_fd_lock.c:54-75 | lock in place |
| FdTable.Files.Unlock | Qsys/software/usbserial_bsp/HAL/src/alt_fd_unlock.c:52-56 | unlock in place |
| FdTable.Files.ReleaseFd | Qsys/software/usbserial_bsp/HAL/src/alt_release_fd.c:44-51 | release in place; the standard descriptors are kept |
| FdTable.Files.Close | Qsys/software/usbserial_bsp/HAL/src/alt_close.c:64-101 | close in place, with its error numbers |
| FdTable.Files.Ioctl | Qsys/software/usbserial_bsp/HAL/src/alt_ioctl.c:106-163 | ioctl in place: requests about locks are served for devices only, all others go to the driver |
| FdTable.Files.OpenFd | Qsys/software/usbserial_bsp/HAL/src/alt_io_redirect.c:58-72 | one redirection in place: open, copy the entry, give the opened descriptor back |
| FdTable.Files.IoRedirect | Qsys/software/usbserial_bsp/HAL/src/alt_io_redirect.c:85-94 | the three redirections before main, in their order |
| IntPrint.FieldReadsBack | Qsys/software/usbserial_bsp/HAL/src/alt_log_printf.c:206-297 | reading a printed field back gives the number, for every 32-bit word, base 8, 10 or 16, sign mode, width and padding; the field is max(width, sign and digits) wide |
| IntPrint.FieldIs | Qsys/software/usbserial_bsp/HAL/src/alt_log_printf.c:257-279 | every position of the field: digits at the right; with leading zeros the sign first and zeros behind it, otherwise blanks and the sign right before the digits |
| IntPrint.CharsCase | Qsys/software/usbserial_bsp/HAL/src/alt_log_printf.c:286-291 | letters among the digits are of the case asked for |
| IntPrint.Console.PrintInteger | Qsys/software/usbserial_bsp/HAL/src/alt_log_printf.c:206-297 | sign stripping, digit count, padding and place-value loop emit that field |
| IntPrint.Console.LargestPlace | Qsys/software/usbserial_bsp/HAL/src/alt_log_printf.c:247-255 | the largest place value is base^(digits-1), at most the number, so it never overflows |
| IntPrint.Console.PrintDigits | Qsys/software/usbserial_bsp/HAL/src/alt_log_printf.c:281-296 | dividing by falling place values emits the digits, most significant first |
| IntPrint.Console.PrintHex | Qsys/software/usbserial_bsp/HAL/src/alt_printf.c:82-111 | the shorter hexadecimal printer emits what the general one does for base 16 in lower case |
| IntPrint.Console.RepChar | Qsys/software/usbserial_bsp/HAL/src/alt_log_printf.c:106-110 | a character is repeated as often as asked, and not at all for a negative count |
| IntPrint.ValueOfNumeral | Qsys/software/usbserial_bsp/HAL/src/alt_log_printf.c:281-296 | the digits stand for the number |
| IntPrint.NumeralIsFixed | Qsys/software/usbserial_bsp/HAL/src/alt_log_printf.c:247-255 | the counted digits are the numeral without leading zeros |
| TimeOfDay.SetThenReadIff | Qsys/software/usbserial_bsp/HAL/src/alt_settod.c:80-84 | for a rate dividing 1000000: reads return the set time plus the elapsed ticks, for every set time and later tick before the counter wraps, if and only if the high half of ticks times microseconds at the set is a multiple of 15625, in particular if it is 0 |
| TimeOfDay.ReadAfterSet | Qsys/software/usbserial_bsp/HAL/src/alt_gettod.c:89-112 | otherwise reads are off by a constant, and the clamp at zero is taken only for times before the epoch |
| TimeOfDay.ReadIsNormal | Qsys/software/usbserial_bsp/HAL/src/alt_gettod.c:95-112 | microseconds of a read are always in [0, 1000000) |
| TimeOfDay.ReadIs | Qsys/software/usbserial_bsp/HAL/src/alt_gettod.c:91-112 | a read is the stored time plus the ticks, except that one that would lie before the epoch and needs a borrow is the epoch itself |
| TimeOfDay.FirstFailure | Qsys/software/usbserial_bsp/HAL/src/alt_settod.c:83-84 | with a millisecond tick the first failing set is at tick 4294968 |
| TimeOfDay.Clock.SetTimeOfDay | Qsys/software/usbserial_bsp/HAL/src/alt_settod.c:72-96 | setting in place, refused without a clock |
| TimeOfDay.Clock.GetTimeOfDay | Qsys/software/usbserial_bsp/HAL/src/alt_gettod.c:71-124 | the two normalising loops of a read, refused without a clock |
| HeapSlabs.BlocksAreSound | Qsys/software/usbserial_bsp/HAL/src/alt_gmon.c:133-148 | over every run of requests with sizes that are multiples of 4 up to 1020 while `sbrk` succeeds: blocks are word aligned, pairwise disjoint and inside granted slabs; all grants are word aligned, pairwise disjoint and within the heap |
| HeapSlabs.FitsIff | Qsys/software/usbserial_bsp/HAL/src/alt_gmon.c:137-146 | a block cut from a new slab lies inside it exactly if the request is at most 1020 bytes |
| HeapSlabs.AllocationServes | Qsys/software/usbserial_bsp/HAL/src/alt_gmon.c:133-148 | a request is cut from the current slab right behind the last block whenever it fits there, from the start of a new one otherwise, and fails only if that is refused |
| HeapSlabs.GrantIsSound | Qsys/software/usbserial_bsp/HAL/src/alt_sbrk.c:68-136 | a grant of non-negative size is aligned, above all earlier ones and never passes the limit; it is refused exactly if it would |
| HeapSlabs.GiveBackIff | Qsys/software/usbserial_bsp/HAL/src/alt_sbrk.c:75-95 | giving a grant back restores the heap end exactly for multiples of four |
| HeapSlabs.Allocator.Sbrk | Qsys/software/usbserial_bsp/HAL/src/alt_sbrk.c:68-136 | the heap end moved in place |
| HeapSlabs.Allocator.Allocate | Qsys/software/usbserial_bsp/HAL/src/alt_gmon.c:133-148 | the slab pointer and size moved in place |
| CacheFlush.FlushData | Qsys/software/usbserial_bsp/HAL/src/alt_dcache_flush.c:57-97 | every data line that overlaps the region is flushed, and no flush is outside it but the last one of an unaligned request |
| CacheFlush.LoopEndsIff | Qsys/software/usbserial_bsp/HAL/src/alt_dcache_flush.c:80-83 | on a region that ends below 2^32 the stepping address reaches the end exactly if it does not wrap on the way |
| CacheFlush.FlushInstructions | Qsys/software/usbserial_bsp/HAL/src/alt_icache_flush.c:42-84 | despite the trimmed length, every line index that the region maps to is flushed, and no address outside the region but the last one of an unaligned request |
| CacheFlush.ExtraFlushNeededIff | Qsys/software/usbserial_bsp/HAL/src/alt_dcache_flush.c:85-94 | the loop alone covers the region exactly if the region ends in the last line it visits |

## Left out

- JTAG UART: the polled small driver, the uC/OS-II branches, the IGNORE_FIFO_FULL_ERROR path, and the console logging hooks.
- JTAG UART: one writer and one reader at a time, as the semaphores around the routines ensure; the semaphores themselves are not modelled.
- JtagDriver.JtagUart.Write: the schedule of preemptions is finite; a call that would spin for ever once it is used up, because the ring is full and the host active, returns the outcome StillWaiting instead.
- JtagDriver.JtagUart.Read: the schedule of preemptions is finite in the same way.
- UartDriver.Uart.Write: the schedule of preemptions is finite in the same way.
- UartTx.NextOk: the receive side of the interrupt routine is not modelled; a receive interrupt appears as an interrupt that finds nothing to send. The receive path can overwrite its ring and makes no claim worth keeping.
- UartDriver.Uart.IrqHandler: the bits of the enable word that belong to the receiver. CTS and its latched change follow the driver's use of them, because the UART generated in this repository has no CTS input and reads both as zero.
- AlarmService.Service.Tick: callbacks answer with an interval and leave the list alone; starting, stopping or freeing other alarms from a callback, and starting an alarm twice, are excluded.
- UsbController.Controller.WriteBytes: lengths from 2^32 - 8 on, for which the loop does not end.
- UsbController.Controller.ReadByte: the access waits in hardware until a byte arrives; the method asks that one will.
- UsbTest.Program.ReceivePacket: a packet that never arrives completely ends in the outcome Waiting, without saying how far the buffer was filled.
- UsbTest: printing, throughput timing, and the serial port's opening, draining and arguments; both pipes start empty.
- UsbExchange.NextKeeps: deadlines are steps that may happen at any time, not times.
- IrqNesting: the exception entry code, interrupt handler registration, and the interrupt vector instruction.
- FdTable.Files.Ioctl: descriptors past the end of the table, which the code does not check.
- FdTable: names and the two registries are replaced by what a name stands for; the result of a driver's own open or close routine is a parameter.
- FdTable.LockExcludes: opening the locked device through a file system is excluded, since only device opens are checked.
- IntPrint: the state machine that parses format strings, the `%c` and `%s` directives, and the polling of the output register; masks and shifts by a nibble are written as division and remainder.
- TimeOfDay.SetThenReadIff: tick rates that do not divide 1000000, and seconds that overflow their type.
- TimeOfDay: the time zone, which is only copied.
- HeapSlabs.BlocksAreSound: requests that give memory back, and anything after a failed `sbrk`.
- HeapSlabs: the lists that the profiler keeps in its blocks, and stack limit checks.
- CacheFlush.FlushData: regions whose stepping address wraps at 2^32, for which the loop does not end or is not entered.
- CacheFlush.FlushInstructions: the same regions, and the final pipeline flush.
- Start-up code, exceptions, `alt_busy_sleep`, system call stubs, register macros and device ioctl vectors: machine loops and plumbing.
- UsbBridge.BridgeIsLossless: the STATUS, CTRL and RX_CNT registers, their error latches and interrupts, and resets after the first; the two-clock FIFO primitive is a library part and appears as a FIFO whose ends see each other late.
- UsbExchange: the USB core behind the bridge and the host's driver are left out; that they hand on each byte once and in order is an assumption.
- The Verilog top level, PLL, pin and timing files.
