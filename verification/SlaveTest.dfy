// main of slave_test, as far as the order of its steps matters: init, then the cycle.
module SlaveTest {
  import opened Words
  import opened Lan9252
  import opened Spi
  import opened ChipFacts
  import opened RpiBase
  import opened GpioIrq
  import opened CycleTimer
  import opened CycleLoop
  import opened Shield
  import FifoConditions

  /** A cycle task around a fresh driver. */
  method NewTask(driver: Driver, kernel: Kernel, handle: int) returns (task: CycleTask)
    requires driver.Valid() && driver.bus.Idle() && Ready(driver.bus.chip) && kernel.Valid() && kernel.taken == 0
    requires driver.OnRing() && driver.OnPort() && driver.ringSteps == [] && driver.portSteps == []
    requires driver.bufferOut[..] == ZeroImage()
    ensures fresh(task) && fresh(task.source)
    ensures fresh(task.timer) && fresh(task.timer.runtime) && fresh(task.timer.period)
    ensures task.Valid() && task.turns == [] && task.seen == []
    ensures task.driver == driver && task.kernel == kernel && task.devHandle == handle
    ensures task.earlier == Outbound(driver.bus.ops) && task.clean == (driver.bus.chip.wr.fifo == [])
  {
    hide Ready, Outbound, Bus.Idle, CycleTask.Valid, Kernel.Valid, Timer.Valid, Driver.OnRing, Driver.OnPort;
    var timer := new Timer();
    var source := new Word64[WORDS](_ => 0);
    task := new CycleTask(driver, kernel, timer, source, handle);
  }

  /** Initialise, and run the cycle only if that returned zero: no outbound frame leaves before, or
      without, a successful init, and then there is exactly one frame for every turn.
      A chip that needed no reset and holds bytes in its read FIFO is accepted: the turns go on until
      the first operational one, whose fetch is not sure to end with the image. */
  method StartAndRun(bus: Bus, kernel: Kernel, spiErr: int, handle: int, inputs: seq<Turn>)
    returns (status: int, task: CycleTask?)
    requires bus.Idle() && (Healthy(bus.chip) ==> Ready(bus.chip))
    requires kernel.Valid() && kernel.taken == 0
    requires kernel.now + Budget(inputs, 100_000_000 + kernel.Jiffy() + kernel.latency) < TWO_63
    modifies bus, kernel
    ensures status == 0 <==> spiErr == 0 && (old(Healthy(bus.chip)) || old(bus.chip.wakes)) && handle != -1
    ensures status != 0 ==> task == null && Outbound(bus.ops) == Outbound(old(bus.ops)) && kernel.now == old(kernel.now)
    ensures status == 0 ==>
              && task != null && task.driver.bus == bus && task.kernel == kernel && task.Valid()
              && task.turns <= inputs && task.devHandle == handle
              && Outbound(bus.ops) == Outbound(old(bus.ops)) + Frames(task.turns)
    ensures status == 0 ==>
              (FifoConditions.FetchSure(bus.chip) <==> !old(Healthy(bus.chip)) || old(bus.chip.rd.fifo) == [])
    ensures status == 0 && FifoConditions.FetchSure(bus.chip) ==> task.turns == inputs
    ensures status == 0 && task.turns != inputs ==> Operational(inputs[|task.turns|].esc)
  {
    hide Ready, Healthy, Outbound, Frames, Bus.Idle, EventsEnabled, InterruptsConfigured, FifoConditions.FetchSure;
    hide CycleTask.Valid, Kernel.Valid, Timer.Valid, Budget, Operational, Driver.OnRing, Driver.OnPort, ZeroImage;
    hide Logged, Acquired, Outputs, Images, AllSent, MessageBytes;
    task := null;
    var driver := new Driver(bus);
    var initialiser := new Initialiser(driver);
    status := initialiser.Init(spiErr, handle);
    if status != 0 {
      return;
    }
    task := NewTask(driver, kernel, initialiser.devHandle);
    task.Execute(inputs);
    TaskIsReady(task);
    FifoConditions.FetchSureExactly(bus.chip);
  }

  lemma TaskIsReady(task: CycleTask)
    requires task.Valid()
    ensures Ready(task.driver.bus.chip)
  {
    hide Ready, Timer.Valid, Kernel.Valid, CycleTask.SendsFor, CycleTask.ReceivesFor, CycleTask.TimesFor;
  }

  /** How such a chip comes about: the previous process was killed while it waited for the image. The
      chip then needs no reset by IsResetNeeded, and its next fetch is not sure to end with the image. */
  lemma KilledProcess(c: Chip, n: nat)
    requires Healthy(c) && Ready(c) && c.rd.fifo == [] && n > |FetchBegun(c).pace|
    ensures var d := Ticks(FetchBegun(c), n);
            Healthy(d) && Ready(d) && d.rd.fifo != [] && !FifoConditions.FetchSure(d)
  {
    hide FetchBegun, Ticks, Ready, FifoConditions.FetchSure, RegValue, IsReady, Slice;
    FifoConditions.KilledFetch(c, n);
    SameRegValue(c, Ticks(FetchBegun(c), n));
  }

  // ---- a run in which the master does not read the message that was sent ----

  const FIRST: Turn := Turn([FifoConditions.ONES], map[], [], 0, false)
  const SECOND: Turn := Turn([FifoConditions.TWOS], map[], FifoConditions.SLOW, 0, true)

  lemma TornTurns(c: Chip)
    requires Ready(c) && c.wr.fifo == []
    ensures var c1 := TurnChip(c, FIRST, FifoConditions.ONES);
            var c2 := TurnChip(c1, SECOND, FifoConditions.TWOS);
            Slice(c2.esc, INPUT_IMAGE, IMAGE_BYTES) != MessageBytes(FifoConditions.TWOS)
  {
    hide Ready, SendChip, StatusChip, MessageBytes, Slice, Ticks, PushChip;
    var b1, b2 := MessageBytes(FifoConditions.ONES), MessageBytes(FifoConditions.TWOS);
    var d := c.(esc := map[], pace := []);
    MasterKeepsReady(c, map[], []);
    FifoConditions.JustPushed(d, b1);
    var c1 := SendChip(StatusChip(d), b1);
    var e := c1.(esc := map[], pace := FifoConditions.SLOW);
    MasterKeepsReady(c1, map[], FifoConditions.SLOW);
    PaceOfPush(StatusChip(e), b2);
    FifoConditions.LateCall(e, b2, |SendChip(StatusChip(e), b2).pace| + 1);
    FifoConditions.FirstBytes();
  }

  lemma PaceOfPush(c: Chip, bytes: seq<byte>)
    requires |bytes| == IMAGE_BYTES
    ensures SendChip(c, bytes).pace == PushChip(c).pace
  {
    hide PushChip, WriteBytes;
    FifoConditions.Pushed(PushChip(c), bytes);
  }

  lemma LatestOfTwo()
    ensures Latest(AllSent([FIRST])) == FifoConditions.ONES
    ensures Latest(AllSent([FIRST, SECOND])) == FifoConditions.TWOS
    ensures Delivered([FIRST, SECOND])[1] == MessageBytes(FifoConditions.TWOS)
  {
    hide MessageBytes;
    assert [FIRST][..0] == [] && [FIRST, SECOND][..1] == [FIRST];
  }

  /** Two turns of the driver from the state the constructor leaves: the first message is not through
      when the second is sent, and although the chip then gets all its time, the master reads an image
      that is not the second message. */
  method UnsettledRun(bus: Bus, kernel: Kernel) returns (task: CycleTask)
    requires bus.Idle() && Ready(bus.chip) && bus.chip.wr.fifo == []
    requires kernel.Valid() && kernel.taken == 0
    requires kernel.now + 2 * (100_000_000 + kernel.Jiffy() + kernel.latency) < TWO_63
    modifies bus, kernel
    ensures task.driver.bus == bus && task.Valid() && task.clean && task.turns == [FIRST, SECOND]
    ensures |task.seen| == 2 && task.seen[1] != Delivered(task.turns)[1]
  {
    hide Ready, Bus.Idle, CycleTask.Valid, Kernel.Valid, Slice, TurnChip, Latest, AllSent, Delivered, MessageBytes;
    hide Outbound, Driver.OnRing, Driver.OnPort, ZeroImage;
    ghost var c := bus.chip;
    TornTurns(c);
    LatestOfTwo();
    var driver := new Driver(bus);
    task := NewTask(driver, kernel, 0);
    IdleTurns(c);
    task.Cycle(FIRST);
    assert [] + [FIRST] == [FIRST];
    IdleTurns(bus.chip);
    task.Cycle(SECOND);
    assert [FIRST] + [SECOND] == [FIRST, SECOND];
  }

  lemma IdleTurns(c: Chip)
    ensures SureTurn(c, FIRST) && SureTurn(c, SECOND)
  {
  }
}
