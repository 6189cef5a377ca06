// execute_fromthread: the real-time cycle as a whole. One turn of the loop waits for the interrupt or
// the timeout, runs MainTask and records its times; between two turns the application thread sends
// messages and the EtherCAT master rewrites the chip's memory. The loop has no end in the source;
// here it makes any number of turns.
module CycleLoop {
  import opened Words
  import opened Lan9252
  import opened Spi
  import opened ChipFacts
  import opened RpiBase
  import opened GpioIrq
  import opened CycleTimer
  import opened Statistics
  import OutputRing
  import SequenceCounter

  const TIMEOUT_MS: int := 100

  /** What the surroundings contribute to one turn: the messages sent before it, the ESC memory and
      the pace of the chip when MainTask starts, the time MainTask takes, and whether the chip is
      given the time to finish its transfer before the master reads the input image. */
  datatype Turn = Turn(sends: seq<Message>, esc: Esc, pace: seq<nat>, busy: nat, settled: bool)

  // ---- what a run should do, read off its turns ----

  /** The output images of the operational turns. */
  function Images(turns: seq<Turn>): (ms: seq<Message>)
    ensures |ms| <= |turns|
  {
    if turns == [] then []
    else
      var last := turns[|turns| - 1];
      Images(turns[..|turns| - 1]) + if Operational(last.esc) then [OutputMessage(last.esc)] else []
  }

  /** Everything the application sent. */
  function AllSent(turns: seq<Turn>): seq<Message>
  {
    if turns == [] then [] else AllSent(turns[..|turns| - 1]) + turns[|turns| - 1].sends
  }

  /** One frame per turn, with the message that was the latest one sent. */
  function Frames(turns: seq<Turn>): (ops: seq<Op>)
    ensures |ops| == |turns|
  {
    if turns == [] then []
    else Frames(turns[..|turns| - 1]) + [Write(ECAT_PRAM_WR_DATA, MessageBytes(Latest(AllSent(turns))))]
  }

  /** What the master reads from the input image after every turn. */
  function Delivered(turns: seq<Turn>): (images: seq<seq<byte>>)
    ensures |images| == |turns|
  {
    if turns == [] then [] else Delivered(turns[..|turns| - 1]) + [MessageBytes(Latest(AllSent(turns)))]
  }

  predicate Settled(turns: seq<Turn>)
  {
    forall i | 0 <= i < |turns| :: turns[i].settled
  }

  /** What the outputs are after the turns: the image of the last turn, or all zero. */
  function Outputs(turns: seq<Turn>): (bs: seq<byte>)
    ensures |bs| == IMAGE_BYTES
  {
    if turns != [] && Operational(turns[|turns| - 1].esc) then OutputImage(turns[|turns| - 1].esc)
    else ZeroImage()
  }

  /** The time n turns may take when one wait takes at most gap. */
  function Budget(turns: seq<Turn>, gap: nat): nat
  {
    if turns == [] then 0 else Budget(turns[..|turns| - 1], gap) + gap + turns[|turns| - 1].busy
  }

  lemma NoTurns(turns: seq<Turn>, gap: nat)
    ensures turns[..0] == [] && Budget(turns[..0], gap) == 0
  {
  }

  lemma BudgetStep(turns: seq<Turn>, i: nat, gap: nat)
    requires i < |turns|
    ensures Budget(turns[..i + 1], gap) == Budget(turns[..i], gap) + gap + turns[i].busy
  {
    assert turns[..i + 1][..i] == turns[..i];
  }

  lemma {:induction false} BudgetMonotone(turns: seq<Turn>, i: nat, gap: nat)
    requires i <= |turns|
    ensures Budget(turns[..i], gap) <= Budget(turns, gap)
    decreases |turns| - i
  {
    if i == |turns| {
      assert turns[..i] == turns;
    } else {
      BudgetStep(turns, i, gap);
      BudgetMonotone(turns, i + 1, gap);
    }
  }

  lemma OneMoreTurn(turns: seq<Turn>, t: Turn)
    ensures Images(turns + [t]) == Images(turns) + if Operational(t.esc) then [OutputMessage(t.esc)] else []
    ensures AllSent(turns + [t]) == AllSent(turns) + t.sends
    ensures Frames(turns + [t]) ==
            Frames(turns) + [Write(ECAT_PRAM_WR_DATA, MessageBytes(Latest(AllSent(turns) + t.sends)))]
    ensures Delivered(turns + [t]) == Delivered(turns) + [MessageBytes(Latest(AllSent(turns) + t.sends))]
    ensures Outputs(turns + [t]) == if Operational(t.esc) then OutputImage(t.esc) else ZeroImage()
  {
    hide Operational, OutputMessage, OutputImage, MessageBytes, Latest;
    assert (turns + [t])[..|turns|] == turns;
  }

  /** Frame k carries the latest message sent before the end of turn k. */
  lemma {:induction false} FrameAt(turns: seq<Turn>, k: nat)
    requires k < |turns|
    ensures Frames(turns)[k] == Write(ECAT_PRAM_WR_DATA, MessageBytes(Latest(AllSent(turns[..k + 1]))))
    decreases |turns|
  {
    hide MessageBytes, Latest, AllSent;
    if k == |turns| - 1 {
      assert turns[..k + 1] == turns;
    } else {
      FrameAt(turns[..|turns| - 1], k);
      assert turns[..|turns| - 1][..k + 1] == turns[..k + 1];
    }
  }

  lemma {:induction false} DeliveredAt(turns: seq<Turn>, k: nat)
    requires k < |turns|
    ensures Delivered(turns)[k] == MessageBytes(Latest(AllSent(turns[..k + 1])))
    decreases |turns|
  {
    hide MessageBytes, Latest, AllSent;
    if k == |turns| - 1 {
      assert turns[..k + 1] == turns;
    } else {
      DeliveredAt(turns[..|turns| - 1], k);
      assert turns[..|turns| - 1][..k + 1] == turns[..k + 1];
    }
  }

  /** The message of frame k, word for word, and of the image delivered after turn k. */
  lemma FrameWords(turns: seq<Turn>, k: nat)
    requires k < |turns|
    ensures var message := Latest(AllSent(turns[..k + 1]));
            && Frames(turns)[k] == Write(ECAT_PRAM_WR_DATA, MessageBytes(message))
            && Delivered(turns)[k] == MessageBytes(message)
            && MessageWords(MessageBytes(message)) == message
  {
    hide MessageBytes, MessageWords, Latest, AllSent, Frames, Delivered;
    FrameAt(turns, k);
    DeliveredAt(turns, k);
    WordsOfBytes(Latest(AllSent(turns[..k + 1])));
  }

  lemma TimeoutFits(ulong: nat)
    requires ulong == TWO_32 || ulong == TWO_64
    ensures RestNs(ulong, TIMEOUT_MS) == 100_000_000
  {
  }

  /** Every MainTask takes the time of its turn, and the next one starts less than gap after it. */
  ghost predicate Paced(cs: seq<CycleTimer.Cycle>, ts: seq<Turn>, gap: nat)
    requires |cs| == |ts|
  {
    && (forall i | 0 <= i < |ts| :: cs[i].end - cs[i].start == ts[i].busy)
    && (forall i | 0 < i < |ts| :: cs[i].start - cs[i - 1].end < gap)
  }

  lemma PacedStep(cs: seq<CycleTimer.Cycle>, ts: seq<Turn>, gap: nat, start: nat, t: Turn)
    requires |cs| == |ts| && Paced(cs, ts, gap)
    requires cs != [] ==> start - cs[|cs| - 1].end < gap
    ensures Paced(cs + [CycleTimer.Cycle(start, start + t.busy)], ts + [t], gap)
  {
  }

  lemma PeriodsBounded(cs: seq<CycleTimer.Cycle>, ts: seq<Turn>, gap: nat)
    requires |cs| == |ts| && Paced(cs, ts, gap)
    ensures forall i | 0 < i < |ts| :: cs[i].start - cs[i - 1].start < ts[i - 1].busy + gap
  {
  }

  /** Between two publications the counter and the shared buffer tell how many there were, and which
      was the last. */
  lemma CounterTells(s: SequenceCounter.State, images: seq<Message>)
    requires SequenceCounter.Inv(s) && s.publisher.Quiet?
    requires s.bumps == 2 * |images| && s.generations == [ZERO_MESSAGE] + images
    ensures s.counter == 2 * |images| % TWO_32 && s.counter % 2 == 0
    ensures s.shared == Latest([ZERO_MESSAGE] + images)
  {
  }

  lemma SettledLanding(c: Chip, message: Message, n: nat)
    requires Ready(c) && Landing(c, INPUT_IMAGE, MessageBytes(message)) && n > |c.pace|
    ensures Ticks(c, n).wr.fifo == []
    ensures Slice(Ticks(c, n).esc, INPUT_IMAGE, IMAGE_BYTES) == MessageBytes(message)
  {
    hide Ticks, Landing, MessageBytes, MessageWords, Slice;
    LandingTicks(c, INPUT_IMAGE, MessageBytes(message), n);
    LandedMessage(Ticks(c, n), INPUT_IMAGE, message);
  }

  lemma SettledFront(ts: seq<Turn>, t: Turn)
    ensures Settled(ts + [t]) <==> Settled(ts) && t.settled
  {
    if Settled(ts + [t]) {
      assert (ts + [t])[|ts|].settled;
      forall i | 0 <= i < |ts| ensures ts[i].settled { assert (ts + [t])[i].settled; }
    }
  }

  /** The chip after one turn that sends m. */
  function TurnChip(c: Chip, t: Turn, m: Message): Chip
  {
    var d := MainChip(c.(esc := t.esc, pace := t.pace), MessageBytes(m));
    if t.settled then Ticks(d, |d.pace| + 1) else d
  }

  /** A turn from which MainTask is sure to come back: one that takes no outputs, or one that finds the
      read FIFO empty (FifoConditions.FetchSureExactly). */
  predicate SureTurn(c: Chip, t: Turn)
  {
    Operational(t.esc) ==> c.rd.fifo == []
  }

  lemma SureOne(c: Chip, t: Turn)
    requires c.rd.fifo == [] || !Operational(t.esc)
    ensures SureTurn(c, t)
  {
  }

  /** What is noted of one turn: whether an interrupt was pending when the wait was called, whether the
      wait took one, when it was called, when MainTask was called, and then, after MainTask, the outputs,
      the buffer shared with the application, and the counter. */
  datatype Entry = Entry(pending: bool, acquired: bool, called: nat, started: nat, outputs: seq<byte>,
                         shared: seq<byte>, counter: Word32)

  function SharedBefore(log: seq<Entry>, i: nat): seq<byte>
    requires i <= |log|
  {
    if i == 0 then ZeroImage() else log[i - 1].shared
  }

  function CounterBefore(log: seq<Entry>, i: nat): Word32
    requires i <= |log|
  {
    if i == 0 then 0 else log[i - 1].counter
  }

  /** The wait of one turn: a pending interrupt is taken at once, and without an interrupt the turn
      starts 100 ms later. */
  predicate Waited(e: Entry, start: nat, open: bool)
  {
    && (open && e.pending ==> e.acquired && start == e.called)
    && (open && !e.acquired ==> start >= e.called + 100_000_000)
    && (!open ==> !e.acquired && start == e.called)
  }

  /** The data of one turn: with an expired watchdog (0x0440) or a state (0x0130) other than OP the
      outputs are zero and the application keeps what it had; otherwise both are the 32 bytes at 0x1000
      and the counter has moved by two. */
  predicate Handled(e: Entry, esc: Esc, shared: seq<byte>, counter: Word32)
  {
    if Peek(esc, 0x0440) % 2 == 0 || Peek(esc, 0x0130) % 16 != 8 then
      && |e.outputs| == 32 && (forall k | 0 <= k < 32 :: e.outputs[k] == 0)
      && e.shared == shared && e.counter == counter
    else
      e.outputs == e.shared == Slice(esc, 0x1000, 32) && e.counter == (counter + 2) % TWO_32
  }

  /** Entry i: the turn waited where the one before had ended, then called MainTask, which handled the
      data it found. */
  ghost predicate EntryFits(log: seq<Entry>, ts: seq<Turn>, cs: seq<CycleTimer.Cycle>, open: bool, i: nat)
    requires i < |log| == |ts| == |cs|
  {
    && Waited(log[i], cs[i].start, open)
    && Handled(log[i], ts[i].esc, SharedBefore(log, i), CounterBefore(log, i))
    && log[i].started == cs[i].start && (i > 0 ==> log[i].called == cs[i - 1].end)
  }

  /** Turn by turn. */
  ghost predicate Logged(log: seq<Entry>, ts: seq<Turn>, cs: seq<CycleTimer.Cycle>, open: bool)
  {
    |log| == |ts| == |cs| && forall i: nat | i < |log| :: EntryFits(log, ts, cs, open, i)
  }

  /** What the log says of turn i, spelled out: a pending interrupt is taken at once; without one MainTask
      is called 100 ms after the wait, which began when the turn before ended; with an expired watchdog or
      a state other than OP the outputs are zero and nothing is published, otherwise the 32 bytes at 0x1000
      are the outputs and are published between two increments. */
  lemma LogMeans(log: seq<Entry>, ts: seq<Turn>, cs: seq<CycleTimer.Cycle>, open: bool, i: nat)
    requires Logged(log, ts, cs, open) && i < |ts|
    ensures |log| == |ts| == |cs|
    ensures var e, esc := log[i], ts[i].esc;
            var shared := if i == 0 then ZeroImage() else log[i - 1].shared;
            var counter := if i == 0 then 0 else log[i - 1].counter;
            && e.started == cs[i].start && (i > 0 ==> e.called == cs[i - 1].end)
            && (open && e.pending ==> e.acquired && e.started == e.called)
            && (open && !e.acquired ==> e.started >= e.called + 100_000_000)
            && (!open ==> !e.acquired && e.started == e.called)
            && (Peek(esc, 0x0440) % 2 == 0 || Peek(esc, 0x0130) % 16 != 8 ==>
                  e.outputs == ZeroImage() && e.shared == shared && e.counter == counter)
            && (Peek(esc, 0x0440) % 2 == 1 && Peek(esc, 0x0130) % 16 == 8 ==>
                  e.outputs == e.shared == Slice(esc, 0x1000, 32) && e.counter == (counter + 2) % 0x1_0000_0000)
  {
    hide Peek, Slice;
    assert EntryFits(log, ts, cs, open, i);
  }

  lemma EntryKept(log: seq<Entry>, ts: seq<Turn>, cs: seq<CycleTimer.Cycle>, open: bool, i: nat,
                  e: Entry, t: Turn, c: CycleTimer.Cycle)
    requires i < |log| == |ts| == |cs| && EntryFits(log, ts, cs, open, i)
    ensures EntryFits(log + [e], ts + [t], cs + [c], open, i)
  {
    hide Waited, Handled;
  }

  lemma EntryAdded(log: seq<Entry>, ts: seq<Turn>, cs: seq<CycleTimer.Cycle>, open: bool,
                   e: Entry, t: Turn, c: CycleTimer.Cycle)
    requires |log| == |ts| == |cs|
    requires Waited(e, c.start, open) && e.started == c.start && (cs != [] ==> e.called == cs[|cs| - 1].end)
    requires Handled(e, t.esc, SharedBefore(log, |log|), CounterBefore(log, |log|))
    ensures EntryFits(log + [e], ts + [t], cs + [c], open, |log|)
  {
    hide Waited, Handled;
  }

  lemma LoggedStep(log: seq<Entry>, ts: seq<Turn>, cs: seq<CycleTimer.Cycle>, open: bool,
                   e: Entry, t: Turn, c: CycleTimer.Cycle)
    requires Logged(log, ts, cs, open) && Waited(e, c.start, open) && e.started == c.start
    requires cs != [] ==> e.called == cs[|cs| - 1].end
    requires Handled(e, t.esc, SharedBefore(log, |log|), CounterBefore(log, |log|))
    ensures Logged(log + [e], ts + [t], cs + [c], open)
  {
    hide EntryFits, Waited, Handled;
    forall i: nat | i < |log + [e]| ensures EntryFits(log + [e], ts + [t], cs + [c], open, i) {
      if i < |log| { EntryKept(log, ts, cs, open, i, e, t, c); } else { EntryAdded(log, ts, cs, open, e, t, c); }
    }
  }

  /** The waits that took an interrupt. */
  function Acquired(log: seq<Entry>): nat
  {
    if log == [] then 0 else Acquired(log[..|log| - 1]) + if log[|log| - 1].acquired then 1 else 0
  }

  lemma AcquiredStep(log: seq<Entry>, e: Entry)
    ensures Acquired(log + [e]) == Acquired(log) + if e.acquired then 1 else 0
  {
    assert (log + [e])[..|log|] == log;
  }

  lemma LastEntry(log: seq<Entry>, e: Entry)
    ensures SharedBefore(log + [e], |log + [e]|) == e.shared && CounterBefore(log + [e], |log + [e]|) == e.counter
  {
  }

  lemma WaitOnly(e: Entry, start: nat, open: bool)
    requires Waited(Entry(e.pending, e.acquired, e.called, 0, [], [], 0), start, open)
    ensures Waited(e, start, open)
  {
  }

  /** What was handled does not depend on the wait. */
  lemma HandledData(e: Entry, esc: Esc, shared: seq<byte>, counter: Word32)
    requires Handled(Entry(false, false, 0, 0, e.outputs, e.shared, e.counter), esc, shared, counter)
    ensures Handled(e, esc, shared, counter)
  {
  }

  class CycleTask {
    const driver: Driver
    const kernel: Kernel
    const timer: Timer
    const source: array<Word64>  // inputbuffer of the application
    const devHandle: int         // m_devhndl
    ghost const earlier: seq<Op> // the write-FIFO frames before the first turn
    ghost const clean: bool      // the write FIFO was empty before the first turn
    ghost var seen: seq<seq<byte>>  // the input images the master read, one after each turn
    ghost var turns: seq<Turn>   // the turns made so far
    ghost var log: seq<Entry>    // what was noted of them
    ghost var startedAt: nat     // when MainTask was last called
    ghost var acquired: nat      // waits that returned zero
    ghost var timedOut: nat      // waits that did not

    /** The longest time between the end of one MainTask and the start of the next. */
    function Gap(): nat
    {
      100_000_000 + kernel.Jiffy() + kernel.latency
    }

    /** The interrupt device was opened, and for writing. */
    predicate Open() { devHandle != -1 && kernel.wOpen }

    ghost predicate Wired()
      reads driver.bus
    {
      && driver.Valid() && driver.bus.Idle() && Ready(driver.bus.chip)
      && source.Length == WORDS && source != driver.bufferIn
    }

    /** The outbound side after the turns ts: the driver is a run of the ring between two calls, what
        was published, and what is on the wire. */
    ghost predicate SendsFor(ts: seq<Turn>)
      requires driver.Valid()
      reads driver`curqidx, driver`curqoutidx, driver`ring, driver`ringSteps, driver.slots, driver.bufferIn, driver.bus
    {
      && driver.OnRing() && driver.ring.sender.Idle? && driver.ring.copier.Waiting?
      && driver.ring.published == AllSent(ts)
      && Outbound(driver.bus.ops) == earlier + Frames(ts)
    }

    /** The inbound side after the turns ts: the driver is a run of the publications between two of
        them, the generations, and the outputs. */
    ghost predicate ReceivesFor(ts: seq<Turn>)
      requires driver.Valid()
      reads driver`atomicCounter, driver`port, driver`portSteps, driver.toApplication, driver.bufferOut
    {
      && driver.OnPort() && driver.port.publisher.Quiet?
      && driver.port.generations == [ZERO_MESSAGE] + Images(ts)
      && driver.port.bumps == 2 * |Images(ts)|
      && driver.bufferOut[..] == Outputs(ts)
    }

    /** The log of the turns ts, up to what the driver holds now. */
    ghost predicate LogFor(ts: seq<Turn>)
      requires driver.Valid()
      reads `log, timer, driver`atomicCounter, driver.toApplication
    {
      && Logged(log, ts, timer.cycles, Open())
      && driver.toApplication[..] == SharedBefore(log, |log|)
      && driver.atomicCounter == CounterBefore(log, |log|)
    }

    /** The master's side after the turns ts. */
    ghost predicate DeliversFor(ts: seq<Turn>)
      reads `seen, driver.bus
    {
      clean && Settled(ts) ==> driver.bus.chip.wr.fifo == [] && seen == Delivered(ts)
    }

    /** Waits and times after the turns ts. */
    ghost predicate TimesFor(ts: seq<Turn>)
      reads `acquired, `timedOut, `log, kernel, timer
    {
      && acquired + timedOut == |ts| == |timer.cycles|
      && kernel.taken == acquired == Acquired(log)
      && Paced(timer.cycles, ts, Gap())
      && (ts != [] ==> timer.cycles[|ts| - 1].end == kernel.now)
    }

    ghost predicate Valid()
      reads this, driver, driver.slots, driver.bus, driver.bufferIn, driver.toApplication, driver.bufferOut
      reads kernel, timer, timer.runtime, timer.period
    {
      && Wired() && kernel.Valid() && timer.Valid()
      && SendsFor(turns) && ReceivesFor(turns) && DeliversFor(turns) && TimesFor(turns) && LogFor(turns)
    }

    constructor (driver: Driver, kernel: Kernel, timer: Timer, source: array<Word64>, devHandle: int)
      requires driver.Valid() && driver.bus.Idle() && Ready(driver.bus.chip)
      requires kernel.Valid() && timer.Valid() && source.Length == WORDS && source != driver.bufferIn
      requires driver.OnRing() && driver.OnPort() && driver.ringSteps == [] && driver.portSteps == []
      requires driver.bufferOut[..] == ZeroImage() && timer.cycles == [] && kernel.taken == 0
      ensures Valid() && turns == [] && seen == [] && log == []
      ensures this.driver == driver && this.kernel == kernel && this.timer == timer
      ensures this.source == source && this.devHandle == devHandle && earlier == Outbound(driver.bus.ops)
      ensures clean == (driver.bus.chip.wr.fifo == [])
    {
      hide OutputRing.Inv, SequenceCounter.Inv, Ready, Outbound, CycleTask.SendsFor, CycleTask.ReceivesFor;
      hide CycleTask.DeliversFor, CycleTask.TimesFor, CycleTask.LogFor, Timer.Valid, Bus.Idle;
      hide Driver.OnRing, Driver.OnPort, ZeroImage;
      this.driver, this.kernel, this.timer, this.source := driver, kernel, timer, source;
      this.devHandle, this.earlier := devHandle, Outbound(driver.bus.ops);
      this.clean, seen := driver.bus.chip.wr.fifo == [], [];
      turns, acquired, timedOut, log := [], 0, 0, [];
      new;
      FreshDriver();
      FreshTimes();
      FreshDeliveries();
    }

    lemma FreshDeliveries()
      requires seen == [] && clean == (driver.bus.chip.wr.fifo == [])
      ensures DeliversFor([])
    {
    }

    lemma FreshDriver()
      requires driver.Valid() && driver.OnRing() && driver.OnPort() && driver.ringSteps == [] && driver.portSteps == []
      requires driver.bufferOut[..] == ZeroImage() && timer.cycles == [] && log == []
      requires Outbound(driver.bus.ops) == earlier
      ensures SendsFor([]) && ReceivesFor([]) && LogFor([])
    {
      hide Outbound, MessageBytes, ZeroImage;
      ZeroMessageBytes();
    }

    lemma FreshTimes()
      requires timer.cycles == [] && kernel.taken == 0 && acquired == timedOut == 0 && log == []
      ensures TimesFor([])
    {
    }

    /** waitforirq_or_timeout */
    method WaitForIrqOrTimeout(timeoutMs: int) returns (err: int)
      requires kernel.Valid()
      requires var rest := RestNs(kernel.ulong, timeoutMs);
               kernel.now + (if rest > 0 then rest else 0) + kernel.Jiffy() + kernel.latency < TWO_63
      modifies kernel
      ensures kernel.Valid() && kernel.taken == old(kernel.taken) + if err == 0 then 1 else 0
      ensures devHandle == -1 ==> err == -1
      ensures !Open() ==> err != 0 && kernel.now == old(kernel.now) && kernel.count == old(kernel.count)
      ensures var rest := RestNs(kernel.ulong, timeoutMs);
              && old(kernel.now) <= kernel.now && (rest <= 0 ==> kernel.now == old(kernel.now))
              && (rest > 0 ==> kernel.now < old(kernel.now) + rest + kernel.Jiffy() + kernel.latency)
              && (rest > 0 && devHandle != -1 && kernel.wOpen ==>
                    && (err != 0 ==> kernel.now >= old(kernel.now) + rest)
                    && (old(kernel.count) > 0 ==> err == 0 && kernel.now == old(kernel.now)))
    {
      hide RestNs;
      err := -1;
      if devHandle != -1 {
        err := kernel.MyApi(IRQMODDEV_DOWN_TIMEOUT, timeoutMs);
      }
    }

    /** The wait of the cycle loop. */
    lemma GapCovers()
      requires kernel.Valid()
      ensures RestNs(kernel.ulong, TIMEOUT_MS) > 0
      ensures Gap() == RestNs(kernel.ulong, TIMEOUT_MS) + kernel.Jiffy() + kernel.latency
    {
      TimeoutFits(kernel.ulong);
    }

    /** One send of the application. */
    method ApplicationSend(m: Message)
      requires driver.Valid() && source.Length == WORDS && source != driver.bufferIn
      requires driver.OnRing() && driver.ring.sender.Idle? && driver.ring.copier.Waiting?
      modifies driver`curqidx, driver`curqoutidx, driver`ring, driver`ringSteps, driver.slots, source
      ensures driver.OnRing() && driver.ring.sender.Idle? && driver.ring.copier.Waiting?
      ensures driver.ring.published == old(driver.ring.published) + [m]
    {
      hide Driver.OnRing;
      source[0], source[1], source[2], source[3] := m[0], m[1], m[2], m[3];
      assert source[..WORDS] == m;
      driver.SendOutput(source);
    }

    /** All sends before one turn. */
    method ApplicationSends(ms: seq<Message>)
      requires driver.Valid() && source.Length == WORDS && source != driver.bufferIn
      requires driver.OnRing() && driver.ring.sender.Idle? && driver.ring.copier.Waiting?
      modifies driver`curqidx, driver`curqoutidx, driver`ring, driver`ringSteps, driver.slots, source
      ensures driver.OnRing() && driver.ring.sender.Idle? && driver.ring.copier.Waiting?
      ensures driver.ring.published == old(driver.ring.published) + ms
    {
      hide Driver.OnRing;
      for i := 0 to |ms|
        invariant driver.OnRing() && driver.ring.sender.Idle? && driver.ring.copier.Waiting?
        invariant driver.ring.published == old(driver.ring.published) + ms[..i]
      {
        ApplicationSend(ms[i]);
        assert ms[..i + 1] == ms[..i] + [ms[i]];
      }
      assert ms[..|ms|] == ms;
    }

    /** The master rewrites the memory of the chip, then MainTask runs. */
    method RunMainTask(esc: Esc, pace: seq<nat>)
      requires driver.Valid() && driver.bus.Idle() && Ready(driver.bus.chip)
      requires Operational(esc) ==> driver.bus.chip.rd.fifo == []
      requires driver.OnRing() && driver.OnPort() && driver.Between()
      modifies driver`atomicCounter, driver`ring, driver`ringSteps, driver`port, driver`portSteps
      modifies driver.bus, driver.bufferIn, driver.bufferOut, driver.toApplication, `startedAt
      ensures driver.bus.Idle() && Ready(driver.bus.chip) && startedAt == kernel.now
      ensures driver.OnRing() && driver.OnPort() && driver.Between()
      ensures driver.ring.published == old(driver.ring.published)
      ensures driver.bus.chip.rd.fifo == old(driver.bus.chip.rd.fifo)
      ensures driver.bus.chip ==
              MainChip(old(driver.bus.chip).(esc := esc, pace := pace), MessageBytes(Latest(driver.ring.published)))
      ensures Outbound(driver.bus.ops) ==
              Outbound(old(driver.bus.ops)) + [Write(ECAT_PRAM_WR_DATA, MessageBytes(Latest(driver.ring.published)))]
      ensures old(driver.bus.chip.wr.fifo) == [] ==>
                Landing(driver.bus.chip, INPUT_IMAGE, MessageBytes(Latest(driver.ring.published)))
      ensures Operational(esc) ==>
                && driver.bufferOut[..] == OutputImage(esc) && driver.port.bumps == old(driver.port.bumps) + 2
                && driver.port.generations == old(driver.port.generations) + [OutputMessage(esc)]
      ensures !Operational(esc) ==>
                && driver.bufferOut[..] == ZeroImage() && driver.port.bumps == old(driver.port.bumps)
                && driver.port.generations == old(driver.port.generations)
      ensures Handled(Entry(false, false, 0, 0, driver.bufferOut[..], driver.toApplication[..], driver.atomicCounter),
                      esc, old(driver.toApplication[..]), old(driver.atomicCounter))
    {
      hide MessageBytes, Slice, Landing, Outbound, OutputMessage, MainChip, Ready, Bus.Idle, Peek, Latest;
      hide Driver.OnRing;
      startedAt := kernel.now;
      MasterKeepsReady(driver.bus.chip, esc, pace);
      driver.bus.MasterUpdate(esc, pace);
      var status := driver.MainTask();
      OutputBytes(esc);
      assert driver.bufferOut[..] == ZeroImage() || Operational(esc);
    }

    /** The chip is given the time it needs, or none; then the master reads the input image. */
    method MasterReads(settled: bool, ghost message: Message)
      requires driver.bus.Idle() && Ready(driver.bus.chip)
      modifies driver.bus`chip, `seen
      ensures driver.bus.Idle() && Ready(driver.bus.chip)
      ensures seen == old(seen) + [Slice(driver.bus.chip.esc, INPUT_IMAGE, IMAGE_BYTES)]
      ensures driver.bus.chip.rd == old(driver.bus.chip.rd)
      ensures var c := old(driver.bus.chip);
              driver.bus.chip == if settled then Ticks(c, |c.pace| + 1) else c
      ensures settled && old(Landing(driver.bus.chip, INPUT_IMAGE, MessageBytes(message))) ==>
                driver.bus.chip.wr.fifo == [] && seen == old(seen) + [MessageBytes(message)]
    {
      hide Landing, Ticks, MessageBytes, Slice, Bus.Idle, MessageWords, Ready;
      ghost var c, n := driver.bus.chip, |driver.bus.chip.pace| + 1;
      if settled {
        driver.bus.Settle();
        ReadyTicks(c, n);
        if Landing(c, INPUT_IMAGE, MessageBytes(message)) {
          SettledLanding(c, message, n);
        }
      }
      seen := seen + [Slice(driver.bus.chip.esc, INPUT_IMAGE, IMAGE_BYTES)];
    }

    /** The data side of one turn: the sends before it, MainTask, and the master's look. */
    method Exchange(ghost ts: seq<Turn>, t: Turn)
      requires Wired() && SendsFor(ts) && ReceivesFor(ts) && DeliversFor(ts) && SureTurn(driver.bus.chip, t)
      modifies driver, driver.slots, driver.bus, driver.bufferIn, driver.bufferOut, driver.toApplication, source, `seen
      modifies `startedAt
      ensures startedAt == kernel.now
      ensures Wired() && SendsFor(ts + [t]) && ReceivesFor(ts + [t]) && DeliversFor(ts + [t])
      ensures driver.bus.chip.rd.fifo == old(driver.bus.chip.rd.fifo)
      ensures driver.bus.chip == TurnChip(old(driver.bus.chip), t, Latest(AllSent(ts + [t])))
      ensures seen == old(seen) + [Slice(driver.bus.chip.esc, INPUT_IMAGE, IMAGE_BYTES)]
      ensures Handled(Entry(false, false, 0, 0, driver.bufferOut[..], driver.toApplication[..], driver.atomicCounter),
                      t.esc, old(driver.toApplication[..]), old(driver.atomicCounter))
    {
      hide Driver.OnRing, Driver.OnPort, Ready, Operational, Images, AllSent, Frames, Outputs, OutputMessage, Handled;
      hide Outbound, OutputImage, BufferWords, MessageBytes, Bus.Idle, Latest, ZeroImage;
      hide Landing, Delivered, Settled, MainChip, Ticks, Slice;
      OneMoreTurn(ts, t);
      SettledFront(ts, t);
      ApplicationSends(t.sends);
      RunMainTask(t.esc, t.pace);
      MasterReads(t.settled, Latest(driver.ring.published));
    }

    /** MainTask took its time; the times of the turn are recorded. */
    method EndOfTurn(startRun: nat, busy: nat)
      requires kernel.Valid() && timer.Valid() && startRun == kernel.now
      requires timer.cycles != [] ==> timer.cycles[|timer.cycles| - 1].end <= kernel.now
      modifies kernel, timer, timer.runtime, timer.period
      ensures kernel.Valid() && timer.Valid() && kernel.taken == old(kernel.taken)
      ensures kernel.now == old(kernel.now) + busy
      ensures timer.cycles == old(timer.cycles) + [CycleTimer.Cycle(old(kernel.now), kernel.now)]
    {
      hide *;
      kernel.Elapse(busy);
      timer.Record(startRun, kernel.now);
    }

    /** What one turn of the while loop does: wait, exchange the data, record the times. */
    method Perform(ghost ts: seq<Turn>, t: Turn) returns (err: int)
      requires Wired() && kernel.Valid() && timer.Valid() && SendsFor(ts) && ReceivesFor(ts) && DeliversFor(ts)
      requires timer.cycles != [] ==> timer.cycles[|timer.cycles| - 1].end == kernel.now
      requires kernel.now + Gap() < TWO_63 && SureTurn(driver.bus.chip, t)
      modifies `seen, `startedAt, driver, driver.slots, driver.bus, driver.bufferIn, driver.bufferOut
      modifies driver.toApplication, source, kernel, timer, timer.runtime, timer.period
      ensures Wired() && kernel.Valid() && timer.Valid()
      ensures SendsFor(ts + [t]) && ReceivesFor(ts + [t]) && DeliversFor(ts + [t])
      ensures driver.bus.chip.rd.fifo == old(driver.bus.chip.rd.fifo)
      ensures driver.bus.chip == TurnChip(old(driver.bus.chip), t, Latest(AllSent(ts + [t])))
      ensures seen == old(seen) + [Slice(driver.bus.chip.esc, INPUT_IMAGE, IMAGE_BYTES)]
      ensures kernel.taken == old(kernel.taken) + if err == 0 then 1 else 0
      ensures t.busy <= kernel.now && old(kernel.now) <= kernel.now - t.busy < old(kernel.now) + Gap()
      ensures timer.cycles == old(timer.cycles) + [CycleTimer.Cycle(kernel.now - t.busy, kernel.now)]
      ensures startedAt == kernel.now - t.busy
      ensures Open() && old(kernel.count) > 0 ==> err == 0 && kernel.now - t.busy == old(kernel.now)
      ensures Open() && err != 0 ==> kernel.now - t.busy >= old(kernel.now) + 100_000_000
      ensures !Open() ==> err != 0 && kernel.now - t.busy == old(kernel.now)
      ensures Waited(Entry(old(kernel.count) > 0, err == 0, old(kernel.now), 0, [], [], 0), kernel.now - t.busy, Open())
      ensures Handled(Entry(false, false, 0, 0, driver.bufferOut[..], driver.toApplication[..], driver.atomicCounter),
                      t.esc, old(driver.toApplication[..]), old(driver.atomicCounter))
    {
      hide *;
      err := WaitForTurn();
      var startRun := kernel.now;
      Exchange(ts, t);
      EndOfTurn(startRun, t.busy);
    }

    /** One turn of the while loop in execute_fromthread. */
    method Cycle(t: Turn)
      requires Valid() && kernel.now + Gap() < TWO_63 && SureTurn(driver.bus.chip, t)
      modifies `turns, `acquired, `timedOut, `seen, `log, `startedAt, driver, driver.slots, driver.bus
      modifies driver.bufferIn, driver.bufferOut, driver.toApplication, source
      modifies kernel, timer, timer.runtime, timer.period
      ensures turns == old(turns) + [t]
      ensures driver.bus.chip.rd.fifo == old(driver.bus.chip.rd.fifo)
      ensures driver.bus.chip == TurnChip(old(driver.bus.chip), t, Latest(AllSent(turns)))
      ensures seen == old(seen) + [Slice(driver.bus.chip.esc, INPUT_IMAGE, IMAGE_BYTES)]
      ensures kernel.now < old(kernel.now) + Gap() + t.busy
      // A pending interrupt is taken at once; without one the turn starts 100 ms later.
      ensures acquired + timedOut == old(acquired) + old(timedOut) + 1 && acquired >= old(acquired)
      ensures |timer.cycles| == |old(timer.cycles)| + 1 && timer.cycles[..|old(timer.cycles)|] == old(timer.cycles)
      ensures var start := timer.cycles[|old(timer.cycles)|].start;
              && (Open() && old(kernel.count) > 0 ==> acquired == old(acquired) + 1 && start == old(kernel.now))
              && (Open() && timedOut > old(timedOut) ==> start >= old(kernel.now) + 100_000_000)
              && (!Open() ==> timedOut == old(timedOut) + 1 && start == old(kernel.now))
      ensures var start := timer.cycles[|old(timer.cycles)|].start;
              log == old(log) + [Entry(old(kernel.count) > 0, acquired > old(acquired), old(kernel.now), start,
                                       driver.bufferOut[..], driver.toApplication[..], driver.atomicCounter)]
      ensures Valid()
    {
      hide *;
      Parts();
      GapCovers();
      ghost var pending, called, cycles := kernel.count > 0, kernel.now, timer.cycles;
      ghost var shared, counter := driver.toApplication[..], driver.atomicCounter;
      DriverIsValid();
      LogTells();
      var err := Perform(turns, t);
      Note(t, cycles, pending, err == 0, called, shared, counter);
      if err == 0 { acquired := acquired + 1; } else { timedOut := timedOut + 1; }
      OneTurnLater(t);
      turns := turns + [t];
      LogHolds();
      Whole();
    }

    /** Note a turn in the log. */
    ghost method Note(t: Turn, cycles: seq<CycleTimer.Cycle>, pending: bool, took: bool, called: nat,
                      shared: seq<byte>, counter: Word32)
      requires Logged(log, turns, cycles, Open()) && |timer.cycles| == |cycles| + 1
      requires startedAt == timer.cycles[|cycles|].start
      requires timer.cycles == cycles + [timer.cycles[|cycles|]]
      requires cycles != [] ==> called == cycles[|cycles| - 1].end
      requires Waited(Entry(pending, took, called, 0, [], [], 0), timer.cycles[|cycles|].start, Open())
      requires shared == SharedBefore(log, |log|) && counter == CounterBefore(log, |log|)
      requires Handled(Entry(false, false, 0, 0, driver.bufferOut[..], driver.toApplication[..], driver.atomicCounter),
                       t.esc, shared, counter)
      modifies `log
      ensures log == old(log) + [Entry(pending, took, called, startedAt, driver.bufferOut[..], driver.toApplication[..],
                                       driver.atomicCounter)]
      ensures Logged(log, turns + [t], timer.cycles, Open())
      ensures driver.toApplication[..] == SharedBefore(log, |log|) && driver.atomicCounter == CounterBefore(log, |log|)
      ensures Acquired(log) == Acquired(old(log)) + if took then 1 else 0
    {
      hide *;
      var e := Entry(pending, took, called, startedAt, driver.bufferOut[..], driver.toApplication[..],
                     driver.atomicCounter);
      HandledData(e, t.esc, shared, counter);
      WaitOnly(e, timer.cycles[|cycles|].start, Open());
      LoggedStep(log, turns, cycles, Open(), e, t, timer.cycles[|cycles|]);
      AcquiredStep(log, e);
      LastEntry(log, e);
      log := log + [e];
    }

    /** The wait of one turn. */
    method WaitForTurn() returns (err: int)
      requires kernel.Valid() && kernel.now + Gap() < TWO_63
      modifies kernel
      ensures kernel.Valid() && kernel.taken == old(kernel.taken) + if err == 0 then 1 else 0
      ensures old(kernel.now) <= kernel.now < old(kernel.now) + Gap()
      ensures Open() && old(kernel.count) > 0 ==> err == 0 && kernel.now == old(kernel.now)
      ensures Open() && err != 0 ==> kernel.now >= old(kernel.now) + 100_000_000
      ensures !Open() ==> err != 0 && kernel.now == old(kernel.now)
      ensures Waited(Entry(old(kernel.count) > 0, err == 0, old(kernel.now), 0, [], [], 0), kernel.now, Open())
    {
      hide RestNs;
      TimeoutFits(kernel.ulong);
      err := WaitForIrqOrTimeout(TIMEOUT_MS);
    }

    lemma Parts()
      requires Valid()
      ensures Wired() && kernel.Valid() && timer.Valid() && SendsFor(turns) && ReceivesFor(turns) && DeliversFor(turns)
               && TimesFor(turns) && LogFor(turns)
      ensures timer.cycles != [] ==> timer.cycles[|timer.cycles| - 1].end == kernel.now
    {
      hide Driver.OnRing, Driver.OnPort, Timer.Valid, Paced, Logged;
      hide CycleTask.SendsFor, CycleTask.ReceivesFor, CycleTask.DeliversFor;
    }

    lemma DriverIsValid()
      requires Wired()
      ensures driver.Valid()
    {
      hide Ready;
    }

    lemma LogTells()
      requires driver.Valid() && LogFor(turns)
      ensures Logged(log, turns, timer.cycles, Open())
      ensures driver.toApplication[..] == SharedBefore(log, |log|)
      ensures driver.atomicCounter == CounterBefore(log, |log|)
    {
      hide Logged;
    }

    lemma LogHolds()
      requires driver.Valid() && Logged(log, turns, timer.cycles, Open())
      requires driver.toApplication[..] == SharedBefore(log, |log|)
      requires driver.atomicCounter == CounterBefore(log, |log|)
      ensures LogFor(turns)
    {
      hide Logged;
    }

    lemma Whole()
      requires Wired() && kernel.Valid() && timer.Valid() && SendsFor(turns) && ReceivesFor(turns) && DeliversFor(turns)
               && TimesFor(turns) && LogFor(turns)
      ensures Valid()
    {
      hide Driver.OnRing, Driver.OnPort, Timer.Valid, Paced, Logged, Ready;
      hide CycleTask.SendsFor, CycleTask.ReceivesFor, CycleTask.DeliversFor;
    }

    /** The waits and times after one more turn. */
    twostate lemma OneTurnLater(t: Turn)
      requires old(TimesFor(turns)) && turns == old(turns)
      requires acquired + timedOut == old(acquired) + old(timedOut) + 1
      requires kernel.taken - old(kernel.taken) == acquired - old(acquired) == Acquired(log) - old(Acquired(log))
      requires t.busy <= kernel.now && kernel.now - t.busy < old(kernel.now) + Gap()
      requires timer.cycles == old(timer.cycles) + [CycleTimer.Cycle(kernel.now - t.busy, kernel.now)]
      ensures TimesFor(turns + [t])
    {
      hide Paced, Acquired;
      PacedStep(old(timer.cycles), turns, Gap(), kernel.now - t.busy, t);
    }

    /** execute_fromthread, any number of turns of it: every turn is one cycle and exactly one frame
        with the latest message, which the master then reads if the chip is given its time; the
        shared buffer holds the last operational image, the counter is twice the number of
        operational turns, the outputs are the image or zero, and every wait either took one
        interrupt or timed out.
        The run goes through all inputs, unless the read FIFO held bytes before it: then it stops at
        the first operational turn, from which the source is not sure to come back. */
    method Execute(inputs: seq<Turn>)
      requires Valid() && turns == []
      requires kernel.now + Budget(inputs, Gap()) < TWO_63
      modifies `turns, `acquired, `timedOut, `seen, `log, `startedAt, driver, driver.slots, driver.bus
      modifies driver.bufferIn, driver.bufferOut, driver.toApplication, source
      modifies kernel, timer, timer.runtime, timer.period
      ensures Valid() && turns <= inputs && |timer.cycles| == |turns|
      ensures driver.bus.chip.rd.fifo == old(driver.bus.chip.rd.fifo)
      ensures old(driver.bus.chip.rd.fifo) == [] ==> turns == inputs
      ensures old(driver.bus.chip.rd.fifo) != [] ==> forall i | 0 <= i < |turns| :: !Operational(turns[i].esc)
      ensures turns != inputs ==> Operational(inputs[|turns|].esc)
      ensures Outbound(driver.bus.ops) == earlier + Frames(turns)
      ensures driver.bufferOut[..] == Outputs(turns)
      ensures clean && (forall i | 0 <= i < |turns| :: turns[i].settled) ==> seen == Delivered(turns)
      ensures driver.toApplication[..] == MessageBytes(Latest([ZERO_MESSAGE] + Images(turns)))
      ensures Logged(log, turns, timer.cycles, Open()) && acquired == Acquired(log)
      ensures driver.atomicCounter == 2 * |Images(turns)| % TWO_32 && driver.atomicCounter % 2 == 0
      ensures kernel.taken == acquired && acquired + timedOut == |turns|
      ensures kernel.count == kernel.handled - acquired
      ensures timer.runtime.samples == Runtimes(timer.cycles) && timer.period.samples == Periods(timer.cycles)
      ensures |turns| >= 2 ==>
                1_000_000.0 * timer.period.icSum == (timer.cycles[|turns| - 1].start - timer.cycles[1].start) as real
      ensures forall i | 0 < i < |turns| ::
                timer.cycles[i].start - timer.cycles[i - 1].start < turns[i - 1].busy + Gap()
    {
      hide *;
      ghost var gap := Gap();
      NoTurns(inputs, gap);
      var i := 0;
      while i < |inputs| && (driver.bus.chip.rd.fifo == [] || !Operational(inputs[i].esc))
        invariant 0 <= i <= |inputs| && Valid() && turns == inputs[..i]
        invariant kernel.now <= old(kernel.now) + Budget(inputs[..i], gap)
        invariant driver.bus.chip.rd.fifo == old(driver.bus.chip.rd.fifo)
        invariant old(driver.bus.chip.rd.fifo) != [] ==> forall j | 0 <= j < i :: !Operational(inputs[j].esc)
      {
        BudgetStep(inputs, i, gap);
        BudgetMonotone(inputs, i + 1, gap);
        SureOne(driver.bus.chip, inputs[i]);
        Cycle(inputs[i]);
        assert inputs[..i + 1] == inputs[..i] + [inputs[i]];
        i := i + 1;
      }
      assert i == |inputs| ==> inputs[..i] == inputs;
      Outcome();
    }

    /** What the invariant says after the last turn. */
    lemma Outcome()
      requires Valid()
      ensures |timer.cycles| == |turns|
      ensures Outbound(driver.bus.ops) == earlier + Frames(turns) && driver.bufferOut[..] == Outputs(turns)
      ensures clean && (forall i | 0 <= i < |turns| :: turns[i].settled) ==> seen == Delivered(turns)
      ensures driver.toApplication[..] == MessageBytes(Latest([ZERO_MESSAGE] + Images(turns)))
      ensures Logged(log, turns, timer.cycles, Open()) && acquired == Acquired(log)
      ensures driver.atomicCounter == 2 * |Images(turns)| % TWO_32 && driver.atomicCounter % 2 == 0
      ensures kernel.taken == acquired && acquired + timedOut == |turns|
      ensures kernel.count == kernel.handled - acquired
      ensures timer.runtime.samples == Runtimes(timer.cycles) && timer.period.samples == Periods(timer.cycles)
      ensures |turns| >= 2 ==>
                1_000_000.0 * timer.period.icSum == (timer.cycles[|turns| - 1].start - timer.cycles[1].start) as real
      ensures forall i | 0 < i < |turns| ::
                timer.cycles[i].start - timer.cycles[i - 1].start < turns[i - 1].busy + Gap()
    {
      hide SequenceCounter.Inv, Ready, Frames, Outputs, Images, Outbound, MessageBytes, Paced, Logged, Acquired;
      hide Runtimes, Periods, Monotone, Driver.OnRing, Sum, SumSq, Mean, Variance, Least, Greatest;
      PeriodsBounded(timer.cycles, turns, Gap());
      if |turns| >= 2 {
        PeriodsTelescope(timer.cycles);
      }
      driver.PortInv();
      CounterTells(driver.port, Images(turns));
    }
  }
}
