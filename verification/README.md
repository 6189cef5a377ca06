# EtherCAT slave on the Raspberry Pi: a verified model of the real-time data path

The repository drives a Microchip LAN9252 EtherCAT slave chip from a Raspberry Pi. A real-time thread
waits for the chip's interrupt (or 100 ms), reads the chip's status and its 32-byte output image over SPI,
and writes a 32-byte input image back. An application thread exchanges those images with the real-time
thread without locks. A kernel module turns the interrupt into a semaphore with a timed wait, and small
helpers keep timing statistics, start the thread and choose its CPU and priority.

This project models that data path in Dafny and proves what it keeps over whole runs.

| file | what it models |
|---|---|
| `Words.dfy` | the byte/word unions and the fixed integer widths |
| `Schedules.dfy` | runs of a step function, for the modules that model interleavings |
| `OutputRing.dfy` | `send_output` against the slot copy, as interleaved steps |
| `SequenceCounter.dfy` | `receive_input` against the publication, as interleaved steps, and `receive_input` itself |
| `Lan9252.dfy` | the chip: registers, CSR interface, the two process-RAM FIFOs, ESC memory |
| `Spi.dfy` | frames between chip-select edges, their decoding, and the bus object |
| `ChipFacts.dfy` | what frames and elapsing time do to the chip |
| `RpiBase.dfy` | the driver object: register access, process-RAM transfers, `MainTask`, both hand-offs |
| `FifoConditions.dfy` | the FIFO conditions the driver relies on and does not check, and runs in which they fail |
| `Statistics.dfy` | `stattool` |
| `CycleTimer.dfy` | the timing statistics of the cycle loop |
| `GpioIrq.dfy` | interrupt handler, semaphore, `down_timeoutms`, `my_api` |
| `Shield.dfy` | chip and interrupt initialisation |
| `CycleLoop.dfy` | `execute_fromthread` over any number of turns: driver, kernel and timer together |
| `SlaveTest.dfy` | `init`, then the cycle, as `main` orders them; the restart of a killed process; a run with a torn image |
| `StartGate.dfy` | the start of the real-time thread over all schedules |
| `Threads.dfy` | priority retry and CPU round robin |

The two hand-offs are proved once over all interleavings of single accesses (`OutputRing`, `SequenceCounter`). The driver
object carries the run of each of these models that its own accesses make (`OnRing`, `OnPort`), one step for every access to
a shared field, so its methods are proved to make exactly those steps, in their order, and every invariant of the
interleavings holds of its fields.

## Assumptions

- Memory is sequentially consistent: a schedule is a sequence of single accesses of the two threads. Reading or
  writing one 64-bit word of a buffer is one access; the words of a structure copy may be taken in any order.
- `m_curqoutidx` starts at zero. The constructor does not set it; it is zero because `ETHB` is a global object.
- The chip may be slow in any finite way. `Chip.pace` lists, for the falling chip-select edges to come, how much
  the chip does at each of them (possibly nothing); after the list it works at full speed. The length of the list
  is the termination measure of every polling loop. ESC memory changes only between two cycles, in any way.
- `int` is 32 bits, `unsigned long long` 64; `unsigned long` is 32 or 64 bits where it matters (`ulong`).
- `double` is modelled as a real number. Where the code takes a square root, the model keeps the value under it.

## What the code does beyond, or against, its own documentation

- `receive_input` accepts a snapshot whenever the counter did not change, also when it is odd, that is in the middle
  of a publication. Snapshots are whole exactly for even counters (`WholeExactlyWhenEven`); `OddReadCanTear` is the
  run that tears. A counter that goes round by a multiple of 2^32 during one attempt also goes unnoticed
  (`WrapConditionIsExact`).
- Before the first `send_output` slot 0 is both the slot being written and the one being copied. The ring survives nine
  overtaking sends after the first publish and none before it (`RingBoundIsExact`), and a cycle can run before the first
  send (`CycleBeforeFirstSend`).
- The comment above `down_timeoutms` promises at least `timeout_ms` and at most one jiffy more. The product with 10^6 is
  computed in `unsigned long` and then read as a signed 64-bit number. On a 32-bit kernel it is the requested time
  exactly for timeouts from 0 to 4294 ms (`NoWrap32`). Above, the minimum is broken (`MinimumExactly`). Below zero, the
  maximum is broken: -1, which an `unsigned int` of all ones becomes on the way through the ioctl, waits more than four
  seconds (`MinusOneWaits`, `MaximumExactly`). The call returns -1 without waiting and without looking at the semaphore
  exactly for the multiples of 2^26 on a 32-bit kernel, and for zero and below on a 64-bit kernel where the product fits
  (`NoWaitExactly`).
- The polling loop of `SPIReadProcRamFifo` tests for exactly eight DWORDs. Called on a chip whose read FIFO is not empty
  it does not reliably yield the image, at any pace (`FetchSureExactly`, `FetchesExactlyWhenEmpty`), and with a DWORD or
  more in the FIFO it may poll for ever (`PollExitsExactly`). Every cycle leaves the FIFO empty, but a process that is
  killed in the middle of a fetch does not (`KilledProcess`), and `init` does not reset such a chip: it still answers
  that it is ready. After the restart the first operational cycle meets the old bytes (`StartAndRun`).
- `SPIWriteProcRamFifo` does not look at what is left of the previous transfer. It is sure to deliver every message if and
  only if the write FIFO is empty when it is called (`LandsExactlyWhenDrained`). `UnsettledRun` is a run of two cycles, from
  the initial state, after which the master reads something else than the second message.
- When the outputs are reset, `MainTask` clears `BufferOut` only: the buffer the application reads keeps the last
  operational image, and the counter does not move.
- With `crrunning` true the start gate would not hold (`SafeExactly`); the repository passes false.

## Model

| member | source | states |
|---|---|---|
| OutputRing.RunKeepsInv | rpi_base/src/rpi_base.cpp:185-202 | in every schedule each slot keeps its message until the tenth later send begins, and the indices follow the number of publications |
| OutputRing.CopyIsLatestPublished | rpi_base/src/rpi_base.cpp:185-202 | in every schedule a finished copy overtaken by at most nine sends equals the message latest published when `m_curqoutidx` was sampled; before the first publish it is the zero buffer if no send began |
| OutputRing.CopiesNeverGoBack | rpi_base/src/rpi_base.cpp:439 | in every schedule, of all copies ever finished, those within the allowance are the whole message that was the latest when they sampled the index, and no copy is of an older message than a copy before it |
| OutputRing.TearingRun | rpi_base/src/rpi_base.cpp:439 | for every larger number of overtaking sends there is a run whose copy equals no message ever sent |
| OutputRing.RingBoundIsExact | include/rpi_base/rpi_base.h:229 | copies overtaken by n sends are always whole if and only if n is at most QINSize - 1, or 0 before the first publish |
| OutputRing.SendRuns | rpi_base/src/rpi_base.cpp:185-202 | the steps of one undisturbed `send_output` (fill, publish, advance, wrap) have a stated effect on the ring |
| OutputRing.CopyRuns | rpi_base/src/rpi_base.cpp:439 | the steps of one undisturbed slot copy put the selected slot into `BufferIn`, and change nothing else that is shared |
| OutputRing.SelectedSlot | rpi_base/src/rpi_base.cpp:439 | in every state of a run in which no first send is under way the selected slot holds the latest published message, or zeros |
| SequenceCounter.RunKeepsInv | rpi_base/src/rpi_base.cpp:389-426 | in every schedule the counter is the number of increments modulo 2^32, even exactly between publications, and the shared buffer is the published one word by word |
| SequenceCounter.AcceptedSnapshots | rpi_base/src/rpi_base.cpp:204-215 | with fewer than 2^32 increments during the attempt, an even-accepted snapshot is one whole published buffer and an odd-accepted one mixes at most two consecutive ones |
| SequenceCounter.WholeExactlyWhenEven | rpi_base/src/rpi_base.cpp:209-212 | untorn snapshots are guaranteed if and only if the counter is even |
| SequenceCounter.OddReadCanTear | rpi_base/src/rpi_base.cpp:394-424 | the tearing run, for every odd counter |
| SequenceCounter.WrapConditionIsExact | include/rpi_base/rpi_base.h:358 | the guarantee for even counters fails exactly when the number of increments during the attempt is a positive multiple of 2^32 |
| SequenceCounter.ReadsNeverGoBack | rpi_base/src/rpi_base.cpp:204-215 | in every schedule, of two reads no word of the later one comes from an older generation than the same word of the earlier one, odd or even; with fewer than 2^32 increments during each attempt two even reads are two whole buffers in order |
| SequenceCounter.ReaderProgress | rpi_base/src/rpi_base.cpp:208-212 | failed attempts of a call are at most the increments made during it, and its steps at most six per attempt |
| SequenceCounter.ReaderNeverBlocks | rpi_base/src/rpi_base.cpp:208-212 | a call in progress always has a step to take |
| SequenceCounter.PublishRuns | rpi_base/src/rpi_base.cpp:394-424 | the steps of one undisturbed publication (count, four words, count) have a stated effect on the port |
| SequenceCounter.InboundPort.ReceiveInput | rpi_base/src/rpi_base.cpp:204-215 | with the publisher making any planned number of its steps before each attempt and after each word, the retry loop ends; it returns one accepted snapshot with its counter: a whole published buffer when that is even, otherwise each word from one of two consecutive buffers |
| Words.FromToBytes | include/rpi_base/rpi_base.h:249-255 | a number read back through n bytes of a union is itself modulo 256^n |
| Words.ToFromBytes | include/rpi_base/rpi_base.h:249-255 | every byte string is the overlay of the number it denotes |
| Words.WordsOfBytes | include/rpi_base/rpi_base.h:260-266 | 32 bytes of a PROCBUFFER reassemble little-endian to its four words |
| Words.MessageByteAt | include/rpi_base/rpi_base.h:260-266 | byte k of a PROCBUFFER is byte k % 8 of word k / 8 |
| Words.ToBytesAt | include/rpi_base/rpi_base.h:249-255 | byte k of a union is its number divided by 256^k, modulo 256 |
| Words.BufferBytes | include/rpi_base/rpi_base.h:260-266 | every 32-byte buffer is the bytes of its four words |
| Spi.DecodeEncode | rpi_base/src/rpi_base.cpp:286-297 | a frame decodes to the operation it was made from, address most significant byte first |
| Spi.FrameLayout | rpi_base/src/rpi_base.cpp:279-319 | the bytes of a frame: 3 or 2, address high and low byte, then 0xFF for every byte to be read, or the data |
| Spi.TraceDecodes | rpi_base/src/rpi_base.cpp:286-323 | the framed byte trace of any operations decodes to exactly those operations; chip select is high before and after every frame |
| Spi.FramesExecute | rpi_base/src/rpi_base.cpp:286-323 | feeding the bytes of a frame to the chip executes the operation the frame decodes to |
| Spi.Bus.WireDecodes | rpi_base/src/rpi_base.cpp:286-323 | whatever was sent through the bus object, its whole trace decodes to exactly the completed operations |
| Spi.Bus.SelectLow | include/rpi_base/rpi_base.h:366 | chip select falls from idle; the chip has done its pending work |
| Spi.Bus.Transfer | rpi_base/src/rpi_base.cpp:171-180 | one byte exchanged with the chip |
| Spi.Bus.SelectHigh | include/rpi_base/rpi_base.h:367 | chip select rises after a complete frame; exactly one operation is added, and the trace stays the rendering of the operations |
| RpiBase.Driver.constructor | rpi_base/src/rpi_base.cpp:91-101 | the state of the zero-initialised global object, which is the initial state of both hand-off models |
| RpiBase.Driver.SendOutput | rpi_base/src/rpi_base.cpp:185-202 | the accesses of `send_output` to the ring are, one by one and in this order, the steps of one send of the ring model, and the fields are those of the run that they lead to |
| RpiBase.Driver.ReadReg | rpi_base/src/rpi_base.cpp:273-300 | one read frame; the low Len bytes of the result are the bytes the chip answered, the others are arbitrary |
| RpiBase.Driver.WriteReg | rpi_base/src/rpi_base.cpp:306-324 | one write frame with the low 32 bits of the data; the chip executes that register write |
| RpiBase.Driver.AwaitCsrRead | rpi_base/src/rpi_base.cpp:344-348 | the loop ends for every finite delay, with the command executed |
| RpiBase.Driver.ReadRegWait | rpi_base/src/rpi_base.cpp:330-353 | for every delay the low Len bytes of the result are the Len bytes of ESC memory at the address; ESC memory changes only by the pending RAM transfer |
| RpiBase.Driver.WriteRegWait | rpi_base/src/rpi_base.cpp:359-383 | for every delay ESC memory then holds the four bytes at the address; it changes otherwise only by the pending RAM transfer |
| RpiBase.Driver.WriteThenRead | rpi_base/src/rpi_base.cpp:330-383 | `Write_Reg_Wait` of d, then `Read_Reg_Wait` of Len bytes at the same address, returns d modulo 256^Len in the low bytes for every delay |
| ChipFacts.CsrWriteStarts | rpi_base/src/rpi_base.cpp:366-375 | the command frame starts a four-byte write of the loaded data at the address |
| ChipFacts.CsrReadEnds | rpi_base/src/rpi_base.cpp:351 | once not busy, the data register holds the ESC bytes of the read |
| ChipFacts.FetchStarts | rpi_base/src/rpi_base.cpp:397-400 | the two constants start a transfer of the 32 bytes at 0x1000 into the empty FIFO |
| ChipFacts.FetchedExactly | rpi_base/src/rpi_base.cpp:402-406 | the test of the polling loop holds exactly when the whole image is in the FIFO |
| RpiBase.Driver.AwaitImage | rpi_base/src/rpi_base.cpp:402-406 | the loop ends for every finite delay, with the whole image in the FIFO |
| RpiBase.Driver.TakeImage | rpi_base/src/rpi_base.cpp:409-422 | `BufferOut` and the published buffer are the image, and the FIFO is empty again |
| RpiBase.Driver.PublishOutputs | rpi_base/src/rpi_base.cpp:421-422 | the structure copy stores the words of `BufferOut`, one step of the port model each |
| RpiBase.Driver.SpiReadProcRamFifo | rpi_base/src/rpi_base.cpp:389-426 | `BufferOut` and the published buffer equal the RAM at 0x1000..0x101F, the FIFO is empty again, and the accesses to counter and buffer are, in this order, the steps of one publication of the words these bytes spell |
| FifoConditions.FetchesExactlyWhenEmpty | rpi_base/src/rpi_base.cpp:402-419 | at every pace the loop is sure to end with the image next in the FIFO if and only if the FIFO was empty when the transfer started |
| FifoConditions.FetchSureExactly | rpi_base/src/rpi_base.cpp:397-419 | `SPIReadProcRamFifo` called on a chip at rest is sure to end with the image, for all memory contents and paces, if and only if the read FIFO is empty at the call |
| FifoConditions.KilledFetch | rpi_base/src/rpi_base.cpp:400-419 | a process killed between the start command and the read frame leaves the chip at rest with the image in its read FIFO |
| FifoConditions.PollExitsExactly | rpi_base/src/rpi_base.cpp:402-406 | the loop ends at every pace of the chip if and only if less than a DWORD was in the read FIFO when the transfer started |
| ChipFacts.RoomExactly | rpi_base/src/rpi_base.cpp:446-450 | the tested count is at least 8 exactly when 32 bytes fit |
| RpiBase.Driver.AwaitRoom | rpi_base/src/rpi_base.cpp:446-450 | the loop ends for every finite delay, with room for 32 bytes |
| RpiBase.Driver.PushImage | rpi_base/src/rpi_base.cpp:453-463 | one write frame with the 32 bytes; the write FIFO stays within its capacity |
| RpiBase.Driver.CopySlot | rpi_base/src/rpi_base.cpp:439 | the structure copy makes the steps of one copy of the ring model, and `BufferIn` is then the latest published message, also in the middle of a send unless that is the first |
| RpiBase.Driver.SpiWriteProcRamFifo | rpi_base/src/rpi_base.cpp:430-464 | exactly one write frame to the FIFO port is added, as the last operation, with the latest published message; the FIFO stays within capacity, the chip afterwards is a function of the chip at the call, and if its FIFO was empty the message is landing at 0x1200 |
| ChipFacts.PushLands | rpi_base/src/rpi_base.cpp:453-463 | a message pushed into an empty FIFO is landing at the input image |
| ChipFacts.LandingTicks | rpi_base/src/rpi_base.cpp:439-462 | a landing message keeps landing while the chip works, at any pace |
| ChipFacts.LandingEnds | rpi_base/src/rpi_base.cpp:439-462 | when the transfer is over the 32 bytes at 0x1200 reassemble to the four words given to `send_output` |
| FifoConditions.LandsExactlyWhenDrained | rpi_base/src/rpi_base.cpp:439-463 | `SPIWriteProcRamFifo` called on a chip at rest is sure to deliver every message, at every pace, if and only if the write FIFO is empty at the call |
| FifoConditions.LandsExactlyWhenUnstarted | rpi_base/src/rpi_base.cpp:446-463 | inside the call: every message lands if and only if, when its bytes are pushed, the FIFO is empty and the whole image is still to be written |
| FifoConditions.UnstartedAtPush | rpi_base/src/rpi_base.cpp:442-453 | that state is reached if and only if the FIFO was empty after the start command, whatever the polling does |
| FifoConditions.FullRoomTells | rpi_base/src/rpi_base.cpp:446-450 | the room count in the register the driver polls is 16 exactly when the write FIFO is empty, so a caller could check it |
| RpiBase.Driver.ClearOutputs | rpi_base/src/rpi_base.cpp:248-250 | `BufferOut` is all zero |
| RpiBase.Driver.ReadStatus | rpi_base/src/rpi_base.cpp:231-242 | watchdog flag and state are the ones in ESC memory, whatever the other bytes of the unions are |
| RpiBase.Driver.UpdateOutputs | rpi_base/src/rpi_base.cpp:246-255 | reset clears the outputs and leaves counter and shared buffer alone; otherwise outputs and shared buffer are the RAM image and the steps of one publication are made |
| RpiBase.Driver.MainTask | rpi_base/src/rpi_base.cpp:221-268 | if bit 0 of byte 0x0440 is clear or the low four bits of 0x0130 are not 8: 32 zero output bytes, and shared buffer, counter and steps as before; otherwise outputs and shared buffer are the 32 bytes at 0x1000 and exactly one publication of them is made; in both cases exactly one outbound frame, the last operation of the call, with the latest message published by `send_output`; ESC memory changes at 0x1200..0x121F only and no other register changes; the returned byte is the state, plus 0x80 exactly for an expired watchdog |
| Statistics.OnePassDeviation | rt_utilities/src/rt_utilities.cpp:53 | the one-pass numerator is the sum of squared distances from the mean |
| Statistics.UnderRoot | rt_utilities/src/rt_utilities.cpp:53-54 | the value under the root is the two-pass sample variance and never negative |
| Statistics.MeanBetween | rt_utilities/src/rt_utilities.cpp:33-49 | vmin <= vmean <= vmax |
| Statistics.VarianceBounds | rt_utilities/src/rt_utilities.cpp:43-54 | the variance is at most n/(4(n-1)) times the squared range, at least 1/(2(n-1)) times it, and zero exactly when all samples are equal |
| Statistics.PermutationInvariant | rt_utilities/src/rt_utilities.cpp:28-56 | all statistics are unchanged by permuting the samples |
| Statistics.ShiftInvariant | rt_utilities/src/rt_utilities.cpp:28-56 | range and variance are unchanged by shifting the samples, the mean shifts along |
| Statistics.TwoSamples | rt_utilities/src/rt_utilities.cpp:28-56 | mean, range and variance of two samples, as numbers |
| Statistics.StatTool.Reset | rt_utilities/src/rt_utilities.cpp:23-26 | no samples, every field zero |
| Statistics.StatTool.Calc | rt_utilities/src/rt_utilities.cpp:28-56 | after any run of calls every field is the statistic, by its sequence definition, of the samples since the last reset |
| CycleTimer.SampleCounts | shield_9252/src/shield_9252.cpp:222-228 | both statistics hold max(0, n - 2) samples after n cycles |
| CycleTimer.SampleAt | shield_9252/src/shield_9252.cpp:221-227 | sample i of the runtime is, in nanoseconds, the time of MainTask in cycle i + 2, and sample i of the period the time since the start before |
| CycleTimer.PeriodsTelescope | shield_9252/src/shield_9252.cpp:224-226 | the period sum is the last start minus the start of cycle 1, in nanoseconds |
| CycleTimer.RuntimesBelowPeriods | shield_9252/src/shield_9252.cpp:221-226 | on a monotone clock the runtime sum without its last sample is at most the period sum without its first, which is the last start minus the start of cycle 2 |
| CycleTimer.MeanPeriod | shield_9252/src/shield_9252.cpp:224-226 | the mean period times the sample count is the time from cycle 1 to the last start, in nanoseconds |
| CycleTimer.Timer.Record | shield_9252/src/shield_9252.cpp:221-229 | one turn's bookkeeping keeps both statistics equal to the sample sequences of the cycles so far |
| GpioIrq.WaitBelow | gpioirq_kdriver/gpioirq.c:193 | one wait ends less than a jiffy after the remaining time |
| GpioIrq.WaitShortfall | gpioirq_kdriver/gpioirq.c:193 | one wait falls short by less than a jiffy, or a jiffy and a microsecond |
| GpioIrq.LongWait | gpioirq_kdriver/gpioirq.c:193 | times that differ by 2^32 microseconds are waited for in the same way, and one wait is never longer than that and a jiffy |
| GpioIrq.NoWrap32 | gpioirq_kdriver/gpioirq.c:185 | on a 32-bit kernel the product is the requested time exactly from 0 to 4294 ms |
| GpioIrq.NoWrapExactly | gpioirq_kdriver/gpioirq.c:185 | for both widths and every timeout, the product is the requested time exactly when it is in range |
| GpioIrq.NoWaitExactly | gpioirq_kdriver/gpioirq.c:185-189 | the call does not wait exactly for multiples of 2^26 on a 32-bit kernel, and for zero and below on a 64-bit kernel as long as the product fits |
| GpioIrq.MinusOneWaits | gpioirq_kdriver/gpioirq.c:185-189 | a timeout of -1 waits 4293967296 ns on a 32-bit kernel |
| GpioIrq.MinimumExactly | gpioirq_kdriver/gpioirq.c:162-187 | for every timeout, the documented minimum is kept if and only if nothing was requested or the product does not wrap |
| GpioIrq.MaximumExactly | gpioirq_kdriver/gpioirq.c:162-187 | for every timeout, the documented maximum is guaranteed if and only if the timeout is not negative or the call does not wait |
| GpioIrq.Kernel.IrqHandler | gpioirq_kdriver/gpioirq.c:45-61 | one more interrupt handled, the count one higher |
| GpioIrq.Kernel.DownTimeoutMs | gpioirq_kdriver/gpioirq.c:167-210 | zero consumes exactly one interrupt and nonzero none; a pending interrupt is taken at once; nonzero means the computed end was reached; back before that end plus one jiffy (plus the wake-up latency), after at most three waits below 2^32 microseconds and two for whole microseconds; after a failure, exactly when the documented minimum and maximum were kept |
| GpioIrq.Kernel.MyApi | gpioirq_kdriver/gpioirq.c:101-154 | the error codes of the ioctl, the semaphore consumed exactly on zero, and the time bounds passed on |
| Shield.Initialiser.IsResetNeeded | shield_9252/src/shield_9252.cpp:98-122 | -11 exactly when bit 27 of HW_CFG is clear, zero exactly when it is set and BYTE_TEST answers 21 43 65 87, otherwise -15; which registers are read |
| Shield.Initialiser.DoResetShield | shield_9252/src/shield_9252.cpp:125-148 | exactly two reset commands and one read of BYTE_TEST; zero exactly for a chip that comes up, which is then ready for the cycle |
| Shield.Initialiser.DoInitIrq | shield_9252/src/shield_9252.cpp:151-187 | the bytes of the event mask at 0x0204, of IRQ_CFG and of INT_EN; no other system register changes; the result is that of opening the device |
| Shield.Initialiser.Init | shield_9252/src/shield_9252.cpp:66-95 | zero if and only if SPI came up, the chip was healthy or could be reset, and the device opened; a chip whose READY bit is clear or that does not answer the test pattern is always reset, a healthy one never; after a zero result the interrupt bytes are in place, and the read FIFO holds what it held before if the chip was healthy and nothing if it was reset; otherwise the first failure decides the code; no outbound frame is sent |
| CycleLoop.CycleTask.constructor | shield_9252/src/shield_9252.cpp:37-40 | the invariant of the loop holds before the first turn |
| CycleLoop.CycleTask.WaitForIrqOrTimeout | shield_9252/src/shield_9252.cpp:51-59 | one interrupt consumed exactly on zero; back before the timeout, a jiffy and the latency are over; not before the timeout when it failed on an open device, and at once when an interrupt was pending |
| CycleLoop.CycleTask.WaitForTurn | shield_9252/src/shield_9252.cpp:198 | the wait of one turn: 100 ms without an interrupt, none with a pending one |
| CycleLoop.CycleTask.RunMainTask | shield_9252/src/shield_9252.cpp:218 | MainTask on the memory the master left: what outputs, shared buffer and counter are then, by bytes 0x0440, 0x0130 and 0x1000 |
| CycleLoop.CycleTask.MasterReads | rpi_base/src/rpi_base.cpp:439-462 | a chip that was landing a message and is given the time shows exactly that message in the input image, and its write FIFO is empty again |
| CycleLoop.CycleTask.Cycle | shield_9252/src/shield_9252.cpp:196-230 | one turn keeps the invariant of the whole loop; a pending interrupt is taken at once, without one the turn starts at least 100 ms after the call, and without an open device it starts at once; MainTask is called at the start that the statistics use; chip and delivered image afterwards are functions of the chip before and the turn |
| CycleLoop.CycleTask.Execute | shield_9252/src/shield_9252.cpp:182-232 | over any number of turns: the outbound frames, the input images the master reads (when the chip is given its time), the outputs, the shared buffer and the counter are functions of the turns; turn by turn, how long it waited, that it waited before MainTask and from the end of the turn before, and what it did with watchdog, state and image; acquired plus timed-out waits are the cycles, and the semaphore count is interrupts handled minus acquired; the statistics are those of the cycles, with the period sum in nanoseconds; every period is below busy time plus the longest wait; with old bytes in the read FIFO the run stops at the first operational turn |
| CycleLoop.LogMeans | rpi_base/src/rpi_base.cpp:221-268 | what the run of Execute did at turn i, spelled out: how long it waited and when MainTask was called, and, by bytes 0x0440, 0x0130 and 0x1000, what outputs, shared buffer and counter were then |
| CycleLoop.FrameWords | rpi_base/src/rpi_base.cpp:439-462 | frame k, and the input image delivered after turn k, carry word for word the latest message sent before the end of turn k |
| CycleLoop.CounterTells | rpi_base/src/rpi_base.cpp:394-424 | between cycles the counter is even and twice the number of operational cycles modulo 2^32, and the shared buffer is the last operational image |
| SlaveTest.StartAndRun | slave_test/src/slave_test.cpp:67-98 | no outbound frame without a successful init; after one, exactly one frame per turn; the next fetch is sure to end with the image if and only if the chip was reset or its read FIFO was empty, and then all turns are made |
| SlaveTest.KilledProcess | shield_9252/src/shield_9252.cpp:98-122 | a process killed while it waits for the image leaves a chip that needs no reset by `is_resetneeded` and whose next fetch is not sure |
| SlaveTest.UnsettledRun | rpi_base/src/rpi_base.cpp:430-464 | two cycles of the driver from the initial state, the first not given its time, after which the master reads something else than the second message |
| StartGate.GateHolds | thread/src/thread.cpp:431-485 | in every schedule with a cycle or a send the fifth step of the main thread, the call of init, returned zero and a sixth, Resume, followed; from then on every step of main is a send; cycles run in the complete object with `m_activ` set and the start mutex held |
| StartGate.FailedInit | slave_test/src/slave_test.cpp:67-73 | in every schedule in which init returns something else, main has returned for good and no cycle and no send was made |
| StartGate.GoneForGood | slave_test/src/slave_test.cpp:67-73 | once main has returned no schedule changes anything any more, with or without `crrunning` |
| StartGate.SafeExactly | thread/src/thread.cpp:470-473 | that holds for all schedules if and only if `crrunning` is false |
| StartGate.LostThread | thread/src/thread.cpp:673-677 | with `crrunning` the thread can end before the derived object is complete |
| StartGate.CycleBeforeFirstSend | slave_test/src/slave_test.cpp:95-114 | a cycle can run before the first `send_output` |
| StartGate.ResumeStarts | thread/src/thread.cpp:477-485 | in every schedule that got past Resume, four steps of the thread are enough for a cycle |
| Threads.Limits.RaiseSoftPrio | thread/src/thread.cpp:68-111 | zero exactly if the soft limit was too low, the hard limit allows the priority and the calls worked; then nothing is missing any more; an infinite hard limit allows every priority of the policy; the code of each failure |
| Threads.Limits.LimitIsPriority | thread/src/thread.cpp:94-98 | a priority stored as the limit is read back as itself through the conversions to unsigned long and int, except -1, which is read back as the largest priority |
| Threads.Limits.SetScheduler | thread/src/thread.cpp:120-136 | at most two attempts for any results of the calls, the second exactly after EPERM and a successful raise |
| Threads.Limits.SetSchedulerUnprivileged | thread/src/thread.cpp:120-136 | against a kernel that at each attempt refuses exactly the priorities above the soft limit of that moment, the priority is granted exactly if it is within the soft limit or can be raised to |
| Threads.CpuCounter.GetNextCpu | thread/src/thread.cpp:540-555 | the value of every call, including the wrap of the 32-bit counter and a failing sysconf |
| Threads.RoundRobin | thread/src/thread.cpp:552-553 | call k returns k modulo n until the counter wraps, and for good when n divides 2^32 |
| Threads.FairShare | thread/src/thread.cpp:552-553 | in any such window every CPU is chosen len / n times or once more |
| Threads.FairExactly | thread/src/thread.cpp:540-553 | counts differ by at most one over all windows if and only if n divides 2^32 |

## Left out

- Concurrency below sequential consistency: ARM memory ordering, compiler reordering around `volatile`, and a 64-bit
  word written in two halves.
- The endless loops of `main` and `execute_fromthread`: the model makes any finite number of turns.
- In `CycleLoop` sends fall between two MainTask calls, and nobody reads in between; the finer interleavings are those
  of `OutputRing` and `SequenceCounter`.
- `InboundPort` copies the words in ascending order; the step model behind `AcceptedSnapshots` allows any order.
- The chip apart from what the driver addresses: EtherCAT master, SyncManagers, FMMU, PRAM abort, the busy flag of the
  write transfer (the driver never reads it), and ESC memory changing in the middle of one MainTask.
- Init: a healthy chip is taken to be at rest when the process starts: no CSR command is executing and the read engine
  moves nothing (its transfer is over or its FIFO is full). A restart takes far longer than either. What the FIFOs hold is
  not restricted.
- Execute: after a start with old bytes in the read FIFO the model stops at the first operational turn, because the source
  may not come back from it; what can happen there is stated by FetchSureExactly and PollExitsExactly.
- `spi_init`, `mlockall`, `open` and the bcm2835 calls: their results are parameters. The `usleep` calls of the reset.
- `IEEE 754` rounding of the statistics, `sqrt`, and `milisleep`.
- The 64-bit counters `m_count` and `count`, and the clock, do not wrap; the overflow of `tv_sec * 1000000000` in a
  32-bit `time_t` is not modelled.
- The kernel around the wait: `down_timeout` wakes at the tick it was asked for plus a bounded latency (no timer-wheel
  slack), a jiffy is a whole number of microseconds, the cap of `usecs_to_jiffies` is not reached, and interrupts between
  `request_irq` and `sema_init` are not modelled.
- Driver registration, GPIO mapping, `access_ok` checks, and the closing of the device.
- `bashoutput`, keyboard and console output.
- `Terminate`, `Suspend`, affinity calls, thread names, the mutex wrappers, and the scheduling parameters of the new
  thread.
- A second `Resume`, which would unlock a start mutex that the thread holds.
