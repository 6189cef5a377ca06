// The conditions on the two process-RAM FIFOs that the driver relies on and does not check: what
// exactly happens when a FIFO is not empty at the start of a transfer.
module FifoConditions {
  import opened Words
  import opened Lan9252
  import opened ChipFacts

  /** The exit test of the polling loop in SPIReadProcRamFifo. */
  predicate PollExits(c: Chip)
  {
    var status := RegBytes(c, ECAT_PRAM_RD_CMD);
    Bit0(status[0]) && status[1] == 8
  }

  ghost predicate PollEventuallyExits(c: Chip)
  {
    exists n: nat :: n > 0 && PollExits(Ticks(c, n))
  }

  /** The loop ends however fast or slow the chip is. */
  ghost predicate EveryPaceExits(c: Chip)
  {
    forall pace: seq<nat> :: PollEventuallyExits(c.(pace := pace))
  }

  /** More bytes in the read FIFO than the test asks for: nobody takes them out. */
  predicate Stuck(c: Chip) { |c.rd.fifo| >= IMAGE_BYTES + 4 }

  lemma StuckTick(c: Chip)
    requires Stuck(c)
    ensures Stuck(Tick(c)) && !PollExits(c)
  {
    hide Slice, Store, EscAfterCsr, CsrAfter, EscAfterWr, WrAfter;
  }

  lemma {:induction false} StuckTicks(c: Chip, n: nat)
    requires Stuck(c)
    ensures !PollExits(Ticks(c, n))
    decreases n
  {
    hide Tick, PollExits, Stuck;
    StuckTick(c);
    if n > 0 {
      StuckTicks(Tick(c), n - 1);
    }
  }

  /** k stale bytes, fewer than a DWORD, and the transfer on its way. */
  predicate Filling(c: Chip, k: nat)
  {
    !c.csr.busy && k < 4 && |c.rd.fifo| + 4 * c.rd.left == k + IMAGE_BYTES
  }

  lemma FillingTick(c: Chip, k: nat)
    requires Filling(c, k)
    ensures Filling(Tick(c), k) && (c.pace == [] || c.rd.left == 0 ==> Tick(c).rd.left == 0)
  {
    hide Tick, Slice;
    TickFetch(c);
  }

  lemma {:induction false} FillingEnds(c: Chip, k: nat, n: nat)
    requires Filling(c, k)
    ensures Filling(Ticks(c, n), k) && (n > |c.pace| || c.rd.left == 0 ==> Ticks(c, n).rd.left == 0)
    decreases n
  {
    hide Tick, Filling;
    if n > 0 {
      FillingTick(c, k);
      PaceTick(c);
      FillingEnds(Tick(c), k, n - 1);
    }
  }

  /** The 32-byte transfer just started, at any pace. */
  predicate FetchStarted(c: Chip)
  {
    c.rd.ptr == OUTPUT_IMAGE && c.rd.left == 8 && !c.csr.busy && |c.rd.fifo| <= FIFO_BYTES && Window(c)
  }

  lemma FullSpeedSticks(c: Chip)
    requires FetchStarted(c) && c.pace == [] && |c.rd.fifo| >= 4
    ensures Stuck(Tick(c))
  {
    hide Tick, Slice;
    TickFetch(c);
  }

  /** The test for exactly eight DWORDs succeeds in the end, at every pace of the chip, if and only if
      less than a DWORD was in the read FIFO at the start of the transfer. */
  lemma PollExitsExactly(c: Chip)
    requires FetchStarted(c)
    ensures EveryPaceExits(c) <==> |c.rd.fifo| < 4
  {
    hide Tick, Slice;
    if |c.rd.fifo| < 4 {
      forall pace: seq<nat> ensures PollEventuallyExits(c.(pace := pace)) {
        var d := c.(pace := pace);
        FillingEnds(d, |c.rd.fifo|, |pace| + 1);
        assert PollExits(Ticks(d, |pace| + 1));
      }
    } else {
      var d := c.(pace := []);
      FullSpeedSticks(d);
      forall n: nat | n > 0 ensures !PollExits(Ticks(d, n)) {
        StuckTicks(Tick(d), n - 1);
      }
      assert !PollEventuallyExits(d);
    }
  }

  /** The loop ends, and whenever it ends the next 32 bytes in the FIFO are the output image. */
  ghost predicate FetchesRight(c: Chip)
  {
    && PollEventuallyExits(c)
    && forall n: nat :: n > 0 && PollExits(Ticks(c, n)) ==>
         && |Ticks(c, n).rd.fifo| >= IMAGE_BYTES
         && Ticks(c, n).rd.fifo[..IMAGE_BYTES] == Slice(c.esc, OUTPUT_IMAGE, IMAGE_BYTES)
  }

  ghost predicate FetchesEveryImage(c: Chip)
  {
    forall esc: Esc :: FetchesRight(c.(esc := esc))
  }

  lemma {:induction false} FetchingTicks(c: Chip, image: seq<byte>, n: nat)
    requires Fetching(c, image)
    ensures Fetching(Ticks(c, n), image) && (n > |c.pace| ==> Ticks(c, n).rd.left == 0)
    decreases n
  {
    hide Tick, Fetching;
    if n > 0 {
      FetchingTick(c, image);
      PaceTick(c);
      FetchingTicks(Tick(c), image, n - 1);
    }
  }

  lemma TickKeepsFirst(c: Chip)
    requires c.rd.fifo != []
    ensures Tick(c).rd.fifo != [] && Tick(c).rd.fifo[0] == c.rd.fifo[0]
  {
    hide Slice, Store, EscAfterCsr, CsrAfter, EscAfterWr, WrAfter, RdMoved;
  }

  /** Nobody takes the oldest byte out of the FIFO while the loop polls. */
  lemma {:induction false} StaleFirst(c: Chip, n: nat)
    requires c.rd.fifo != []
    ensures Ticks(c, n).rd.fifo != [] && Ticks(c, n).rd.fifo[0] == c.rd.fifo[0]
    decreases n
  {
    hide Tick;
    if n > 0 {
      TickKeepsFirst(c);
      StaleFirst(Tick(c), n - 1);
    }
  }

  lemma FetchesWhenEmpty(c: Chip)
    requires FetchStarted(c) && c.rd.fifo == []
    ensures FetchesRight(c)
  {
    hide Tick, RegBytes;
    var image := Slice(c.esc, OUTPUT_IMAGE, IMAGE_BYTES);
    FetchingBegun(c);
    forall n: nat | n > 0
      ensures n > |c.pace| ==> PollExits(Ticks(c, n))
      ensures PollExits(Ticks(c, n)) ==> Ticks(c, n).rd.fifo == image
    {
      FetchingTicks(c, image, n);
      FetchedExactly(Ticks(c, n), image);
    }
    assert PollExits(Ticks(c, |c.pace| + 1));
  }

  /** At every pace of the chip: the polling loop is sure to hand over the right image if and only if
      the read FIFO was empty when the transfer started. */
  lemma FetchesExactlyWhenEmpty(c: Chip)
    requires FetchStarted(c)
    ensures FetchesEveryImage(c) <==> c.rd.fifo == []
  {
    hide Slice, Store, FetchesRight;
    if c.rd.fifo == [] {
      forall esc: Esc ensures FetchesRight(c.(esc := esc)) {
        FetchesWhenEmpty(c.(esc := esc));
      }
    } else {
      var image := FilledWith(if c.rd.fifo[0] == 0 then 1 else 0, IMAGE_BYTES);
      var d := c.(esc := Store(map[], OUTPUT_IMAGE, image));
      StoredImage(image);
      StaleIsWrong(d, image);
    }
  }

  lemma StoredImage(image: seq<byte>)
    requires |image| == IMAGE_BYTES
    ensures Slice(Store(map[], OUTPUT_IMAGE, image), OUTPUT_IMAGE, IMAGE_BYTES) == image
  {
  }

  lemma StaleIsWrong(c: Chip, image: seq<byte>)
    requires c.rd.fifo != [] && Slice(c.esc, OUTPUT_IMAGE, IMAGE_BYTES) == image
    requires image[0] != c.rd.fifo[0]
    ensures !FetchesRight(c)
  {
    hide PollExits, Ticks;
    if PollEventuallyExits(c) {
      var n: nat :| n > 0 && PollExits(Ticks(c, n));
      StaleFirst(c, n);
      if |Ticks(c, n).rd.fifo| >= IMAGE_BYTES {
        assert Ticks(c, n).rd.fifo[..IMAGE_BYTES][0] == c.rd.fifo[0];
      }
    }
  }

  /** The two commands of SPIReadProcRamFifo leave the transfer just started, after what the read
      FIFO held. */
  lemma FetchBegins(c: Chip)
    requires Ready(c)
    ensures var d := FetchBegun(c);
            && FetchStarted(d) && d.rd.fifo == c.rd.fifo && OnlyInput(c.esc, d.esc)
            && d.sys == c.sys && d.wakes == c.wakes && |d.wr.fifo| <= FIFO_BYTES
  {
    hide Tick, OnlyInput, WrProgress;
    var c1 := WriteDword(Tick(c), ECAT_PRAM_RD_ADDR_LEN, READ_SETUP);
    assert READ_SETUP[..2] == [0x00, 0x10] && READ_SETUP[2..] == [0x20, 0x00];
    QuietTick(c);
    PassedReady(c, Tick(c));
    WindowProgress(c, Tick(c));
    QuietTick(c1);
    PassedReady(c1, Tick(c1));
    WindowProgress(c1, Tick(c1));
    OnlyInputTransitive(c.esc, c1.esc, Tick(c1).esc);
  }

  /** The next fetch of a chip at rest is sure to hand over the image, whatever the master wrote and
      at every pace. */
  ghost predicate FetchSure(c: Chip)
  {
    forall esc: Esc, pace: seq<nat> :: FetchesRight(FetchBegun(c.(esc := esc, pace := pace)))
  }

  /** SPIReadProcRamFifo, called on a chip at rest, is sure to end with the image if and only if the
      read FIFO is empty at the call. */
  lemma FetchSureExactly(c: Chip)
    requires Ready(c)
    ensures FetchSure(c) <==> c.rd.fifo == []
  {
    hide FetchBegun, Slice, Store, FetchesRight, OnlyInput;
    if c.rd.fifo == [] {
      forall esc: Esc, pace: seq<nat> ensures FetchesRight(FetchBegun(c.(esc := esc, pace := pace))) {
        MasterKeepsReady(c, esc, pace);
        FetchBegins(c.(esc := esc, pace := pace));
        FetchesWhenEmpty(FetchBegun(c.(esc := esc, pace := pace)));
      }
    } else {
      var image := FilledWith(if c.rd.fifo[0] == 0 then 1 else 0, IMAGE_BYTES);
      var esc := Store(map[], OUTPUT_IMAGE, image);
      var d := c.(esc := esc, pace := []);
      MasterKeepsReady(c, esc, []);
      FetchBegins(d);
      StoredImage(image);
      OutputKept(esc, FetchBegun(d).esc);
      StaleIsWrong(FetchBegun(d), image);
    }
  }

  lemma OutputKept(esc: Esc, esc': Esc)
    requires OnlyInput(esc, esc')
    ensures Slice(esc', OUTPUT_IMAGE, IMAGE_BYTES) == Slice(esc, OUTPUT_IMAGE, IMAGE_BYTES)
  {
  }

  /** A process that is killed while it polls, or before it takes the bytes, leaves the chip at rest,
      as healthy as it was, with the image in the read FIFO. */
  lemma KilledFetch(c: Chip, n: nat)
    requires Ready(c) && c.rd.fifo == [] && n > |FetchBegun(c).pace|
    ensures var d := Ticks(FetchBegun(c), n);
            && Ready(d) && d.rd.fifo == Slice(FetchBegun(c).esc, OUTPUT_IMAGE, IMAGE_BYTES) && d.rd.fifo != []
            && d.sys == c.sys && !FetchSure(d)
  {
    hide FetchBegun, Ticks, Slice, FetchesRight, OnlyInput, FetchSure, WrProgress;
    FetchBegins(c);
    var b := FetchBegun(c);
    var image := Slice(b.esc, OUTPUT_IMAGE, IMAGE_BYTES);
    FetchingBegun(b);
    FetchingTicks(b, image, n);
    FetchedExactly(Ticks(b, n), image);
    FetchingRest(b, image, n);
    ProgressKeepsWindow(b, Ticks(b, n));
    FetchSureExactly(Ticks(b, n));
  }

  lemma FetchingBegun(c: Chip)
    requires FetchStarted(c) && c.rd.fifo == []
    ensures Fetching(c, Slice(c.esc, OUTPUT_IMAGE, IMAGE_BYTES))
  {
  }

  lemma {:induction false} FetchingRest(c: Chip, image: seq<byte>, n: nat)
    requires Fetching(c, image)
    ensures WrProgress(c, Ticks(c, n)) && Ticks(c, n).sys == c.sys
    decreases n
  {
    hide Tick, Fetching, WrProgress;
    if n == 0 {
      WrProgressReflexive(c, c);
    } else {
      FetchingTick(c, image);
      FetchingRest(Tick(c), image, n - 1);
      WrProgressTransitive(c, Tick(c), Ticks(c, n));
    }
  }

  function FilledWith(b: byte, n: nat): (bs: seq<byte>)
    ensures |bs| == n && forall i | 0 <= i < n :: bs[i] == b
  {
    if n == 0 then [] else FilledWith(b, n - 1) + [b]
  }

  /** The input image after msg was pushed and the chip had n edges of time. */
  function Landed(c: Chip, msg: seq<byte>, n: nat): (bs: seq<byte>)
    ensures |bs| == IMAGE_BYTES
  {
    Slice(Ticks(WriteBytes(c, ECAT_PRAM_WR_DATA, msg), n).esc, INPUT_IMAGE, IMAGE_BYTES)
  }

  /** Whatever the message, and however long the chip has had once it is through its pace list. */
  ghost predicate EveryMessageLands(c: Chip)
  {
    forall msg: seq<byte>, n: nat :: |msg| == IMAGE_BYTES && n > |c.pace| ==> Landed(c, msg, n) == msg
  }

  lemma Pushed(c: Chip, msg: seq<byte>)
    requires |msg| == IMAGE_BYTES
    ensures WriteBytes(c, ECAT_PRAM_WR_DATA, msg) == c.(wr := c.wr.(fifo := c.wr.fifo + msg))
  {
    FifoWrite(c, msg);
    assert WholeDwords(msg) == msg;
  }

  /** The write engine has moved all it can. */
  predicate Exhausted(c: Chip) { c.wr.left == 0 || |c.wr.fifo| < 4 }

  lemma ExhaustedTick(c: Chip)
    requires !c.csr.busy && c.wr.left <= FIFO_DWORDS
    ensures WrProgress(c, Tick(c)) && !Tick(c).csr.busy && Tick(c).wr.left <= c.wr.left
    ensures Exhausted(c) || c.pace == [] ==> Exhausted(Tick(c))
  {
    TickProgress(c);
  }

  /** At any pace the engine only makes progress, and it is done one edge after the pace list. */
  lemma {:induction false} EngineTicks(c: Chip, n: nat)
    requires !c.csr.busy && c.wr.left <= FIFO_DWORDS
    ensures WrProgress(c, Ticks(c, n))
    ensures n > |c.pace| || Exhausted(c) ==> Exhausted(Ticks(c, n))
    decreases n
  {
    hide Tick, WrProgress, Exhausted;
    if n == 0 {
      WrProgressReflexive(c, c);
    } else {
      ExhaustedTick(c);
      PaceTick(c);
      EngineTicks(Tick(c), n - 1);
      WrProgressTransitive(c, Tick(c), Ticks(c, n));
    }
  }

  /** The byte that lands first when the engine is not where a new message needs it: an old byte of
      RAM, or a byte left over in the FIFO. */
  function FirstByte(c: Chip): byte
  {
    if c.wr.ptr == INPUT_IMAGE && c.wr.fifo != [] then c.wr.fifo[0] else Peek(c.esc, INPUT_IMAGE)
  }

  lemma FirstByteLands(c: Chip, msg: seq<byte>, n: nat)
    requires Draining(c) && |c.wr.fifo| <= IMAGE_BYTES && !Unstarted(c)
    requires |msg| == IMAGE_BYTES && n > |c.pace|
    ensures Landed(c, msg, n)[0] == FirstByte(c)
  {
    hide Tick, Ticks, WriteBytes;
    Pushed(c, msg);
    var d := WriteBytes(c, ECAT_PRAM_WR_DATA, msg);
    EngineTicks(d, n);
    assert Peek(Ticks(d, n).esc, INPUT_IMAGE) == FirstByte(c);
  }

  /** Every message lands if and only if the FIFO was empty and the whole image was still to be
      written when its bytes were pushed. */
  lemma LandsExactlyWhenUnstarted(c: Chip)
    requires Draining(c) && |c.wr.fifo| <= IMAGE_BYTES
    ensures EveryMessageLands(c) <==> Unstarted(c)
  {
    if Unstarted(c) {
      forall msg: seq<byte>, n: nat | |msg| == IMAGE_BYTES && n > |c.pace| ensures Landed(c, msg, n) == msg {
        LandsWhenUnstarted(c, msg, n);
      }
    } else {
      hide Landed, FirstByte, Draining, Unstarted;
      var msg := FilledWith(if FirstByte(c) == 0 then 1 else 0, IMAGE_BYTES);
      FirstByteLands(c, msg, |c.pace| + 1);
      assert Landed(c, msg, |c.pace| + 1) != msg;
    }
  }

  lemma LandsWhenUnstarted(c: Chip, msg: seq<byte>, n: nat)
    requires Draining(c) && Unstarted(c) && |msg| == IMAGE_BYTES && n > |c.pace|
    ensures Landed(c, msg, n) == msg
  {
    hide Ticks, WriteBytes, Slice;
    Pushed(c, msg);
    PushLands(c, msg);
    var d := WriteBytes(c, ECAT_PRAM_WR_DATA, msg);
    LandingTicks(d, INPUT_IMAGE, msg, n);
    assert msg[..|msg|] == msg;
  }

  // ---- the whole call of SPIWriteProcRamFifo ----

  /** Every call with every message delivers it, at every pace, once the chip has had its time. */
  ghost predicate EveryCallLands(c: Chip)
  {
    forall pace: seq<nat>, msg: seq<byte>, n: nat ::
      |msg| == IMAGE_BYTES && n > |PushChip(c.(pace := pace)).pace| ==>
        Landed(PushChip(c.(pace := pace)), msg, n) == msg
  }

  lemma DrainBegins(c: Chip)
    requires Ready(c)
    ensures Draining(DrainBegun(c)) && DrainBegun(c).wr.ptr == INPUT_IMAGE
    ensures c.wr.fifo == [] ==> Unstarted(DrainBegun(c))
  {
    hide Tick, OnlyInput;
    DrainLoads(c);
    DrainStarts(c, WriteDword(Tick(c), ECAT_PRAM_WR_ADDR_LEN, WRITE_SETUP));
  }

  /** Polling for room ends with room, and only drains. */
  lemma {:induction false} RoomPolled(c: Chip)
    requires Draining(c)
    ensures var d := RoomAfter(c);
            && Draining(d) && |d.wr.fifo| <= IMAGE_BYTES && WrProgress(c, d)
            && (Unstarted(c) ==> Unstarted(d))
    decreases |c.pace|
  {
    hide Tick, Draining, Unstarted, WrProgress, OnlyInput;
    var d := Tick(c);
    DrainingTick(c);
    DrainingProgress(c);
    PaceTick(c);
    if |d.wr.fifo| > IMAGE_BYTES && c.pace != [] {
      RoomPolled(d);
      WrProgressTransitive(c, d, RoomAfter(d));
    }
  }

  lemma DrainingProgress(c: Chip)
    requires Draining(c)
    ensures WrProgress(c, Tick(c))
  {
    hide Tick, WrProgress;
    QuietTick(c);
    PassedProgress(c, Tick(c));
  }

  lemma PassedProgress(c: Chip, d: Chip)
    requires Passed(c, d)
    ensures WrProgress(c, d)
  {
  }

  /** The engine is where a new message needs it when the bytes are pushed if and only if the FIFO
      was empty after the start command. */
  lemma UnstartedAtPush(c: Chip)
    requires Ready(c)
    ensures Draining(PushChip(c)) && |PushChip(c).wr.fifo| <= IMAGE_BYTES
    ensures Unstarted(PushChip(c)) <==> DrainBegun(c).wr.fifo == []
  {
    hide Tick, DrainBegun, RoomAfter, OnlyInput, RamProgress;
    var d := DrainBegun(c);
    var r := RoomAfter(d);
    DrainBegins(c);
    RoomPolled(d);
    DrainingTick(r);
    DrainingProgress(r);
    WrProgressTransitive(d, r, Tick(r));
  }

  /** An edge at which the chip is stalled does nothing. */
  lemma StalledTick(c: Chip)
    requires c.pace != [] && c.pace[0] == 0
    ensures Tick(c) == c.(pace := c.pace[1..])
  {
    var d := Tick(c);
    assert c.rd.fifo + Slice(c.esc, c.rd.ptr, 0) == c.rd.fifo;
    assert c.wr.fifo[0..] == c.wr.fifo && c.wr.fifo[..0] == [];
    assert d.rd == c.rd && d.wr == c.wr && d.csr == c.csr && d.esc == c.esc;
  }

  /** A chip stalled during the two commands still holds what its write FIFO held at the call. */
  lemma StalledBegin(c: Chip)
    requires |c.pace| >= 2 && c.pace[..2] == [0, 0]
    ensures DrainBegun(c).wr.fifo == c.wr.fifo && DrainBegun(c).pace == c.pace[2..]
  {
    hide Tick;
    assert c.pace[0] == c.pace[..2][0] && c.pace[1] == c.pace[..2][1];
    StalledTick(c);
    var c1 := WriteDword(Tick(c), ECAT_PRAM_WR_ADDR_LEN, WRITE_SETUP);
    StalledTick(c1);
    assert c.pace[1..][1..] == c.pace[2..];
  }

  /** SPIWriteProcRamFifo, called on a chip at rest, is sure to deliver every message if and only if
      the write FIFO is empty at the call. The driver does not look; reading the room count would
      tell (FullRoomTells). */
  lemma LandsExactlyWhenDrained(c: Chip)
    requires Ready(c)
    ensures EveryCallLands(c) <==> c.wr.fifo == []
  {
    hide PushChip, Landed, Draining, Unstarted, DrainBegun;
    if c.wr.fifo == [] {
      forall pace: seq<nat>, msg: seq<byte>, n: nat
        | |msg| == IMAGE_BYTES && n > |PushChip(c.(pace := pace)).pace|
        ensures Landed(PushChip(c.(pace := pace)), msg, n) == msg
      {
        var d := c.(pace := pace);
        MasterKeepsReady(c, c.esc, pace);
        assert d == c.(esc := c.esc, pace := pace);
        DrainBegins(d);
        UnstartedIsEmpty(DrainBegun(d));
        UnstartedAtPush(d);
        LandsWhenUnstarted(PushChip(d), msg, n);
      }
    } else {
      var d := c.(pace := [0, 0]);
      MasterKeepsReady(c, c.esc, [0, 0]);
      assert d == c.(esc := c.esc, pace := [0, 0]);
      StalledBegin(d);
      UnstartedAtPush(d);
      var p := PushChip(d);
      var msg := FilledWith(if FirstByte(p) == 0 then 1 else 0, IMAGE_BYTES);
      FirstByteLands(p, msg, |p.pace| + 1);
      assert Landed(p, msg, |p.pace| + 1) != msg;
    }
  }

  lemma UnstartedIsEmpty(c: Chip)
    requires Unstarted(c)
    ensures c.wr.fifo == []
  {
  }

  /** The room count in the register that the driver polls says whether the write FIFO is empty. */
  lemma FullRoomTells(c: Chip)
    requires |c.wr.fifo| <= FIFO_BYTES
    ensures RegBytes(c, ECAT_PRAM_WR_CMD)[1] == 16 <==> c.wr.fifo == []
  {
  }

  // ---- a run of the driver in which a transfer is not over at the next call ----

  /** The chip moves one DWORD while each of the two status reads is executed, and nothing else. */
  const SLOW: seq<nat> := [0, 1, 0, 0, 1, 0, 0, 0, 0, 0]

  lemma {:induction false} ReadingEnds(c0: Chip, c: Chip, a: nat, len: nat)
    requires CsrReading(c0, c, a, len)
    ensures CsrReading(c0, IdleAfter(c), a, len) && !IdleAfter(c).csr.busy
    decreases |c.pace|
  {
    hide Tick, CsrReading;
    CsrReadingTick(c0, c, a, len);
    PaceTick(c);
    if Tick(c).csr.busy && c.pace != [] {
      ReadingEnds(c0, Tick(c), a, len);
    }
  }

  lemma ReadPasses(c: Chip, a: Word16, len: byte)
    requires Ready(c) && len <= 4 && a + len <= INPUT_IMAGE
    ensures Passed(c, ReadChip(c, a, len)) && Ready(ReadChip(c, a, len))
  {
    hide Tick, CsrReading, IdleAfter, Passed, WriteDword;
    WindowClears(c, a, len);
    CsrReadStarts(c, a, len);
    ReadingEnds(c, WriteDword(Tick(c), ECAT_CSR_CMD, CsrCommand(a, len, ESC_READ)), a, len);
    CsrReadEnds(c, IdleAfter(WriteDword(Tick(c), ECAT_CSR_CMD, CsrCommand(a, len, ESC_READ))), a, len);
    PassedReady(c, ReadChip(c, a, len));
  }

  /** One status read at a stalled edge, one that moves a DWORD, and a stalled one. */
  lemma SlowRead(c: Chip, a: Word16, len: byte, rest: seq<nat>)
    requires Quiet(c) && c.pace == [0, 1, 0] + rest && c.wr.left > 0 && |c.wr.fifo| >= 4
    ensures var d := ReadChip(c, a, len);
            d.pace == rest && d.wr == c.wr.(ptr := c.wr.ptr + 4, left := c.wr.left - 1, fifo := c.wr.fifo[4..])
  {
    hide Tick;
    StalledTick(c);
    assert c.pace[1..] == [1, 0] + rest;
    var c1 := WriteDword(Tick(c), ECAT_CSR_CMD, CsrCommand(a, len, ESC_READ));
    OneDword(c1);
    assert c1.pace[1..] == [0] + rest;
    StalledTick(Tick(c1));
    assert Tick(c1).pace[1..] == rest;
  }

  lemma OneDword(c: Chip)
    requires c.pace != [] && c.pace[0] == 1 && c.wr.left > 0 && |c.wr.fifo| >= 4
    ensures Tick(c).pace == c.pace[1..] && !Tick(c).csr.busy
    ensures Tick(c).wr == c.wr.(ptr := c.wr.ptr + 4, left := c.wr.left - 1, fifo := c.wr.fifo[4..])
  {
    hide Slice, Store;
  }

  /** A message sent when the write FIFO was empty is still there in full when the call returns. */
  lemma JustPushed(c: Chip, msg: seq<byte>)
    requires Ready(c) && c.wr.fifo == [] && |msg| == IMAGE_BYTES
    ensures var d := SendChip(StatusChip(c), msg);
            Ready(d) && d.wr.fifo == msg && d.wr.left == 8
  {
    hide ReadChip, PushChip, DrainBegun, Passed, WriteBytes, Landing;
    ReadPasses(c, WDOG_STATUS, 1);
    var c1 := ReadChip(c, WDOG_STATUS, 1);
    PassedReady(c, c1);
    ReadPasses(c1, AL_STATUS_REG_0, 1);
    var c2 := ReadChip(c1, AL_STATUS_REG_0, 1);
    PassedReady(c1, c2);
    DrainBegins(c2);
    UnstartedIsEmpty(DrainBegun(c2));
    UnstartedAtPush(c2);
    Pushed(PushChip(c2), msg);
    PushLands(PushChip(c2), msg);
    ReadyPush(c2);
    assert [] + msg == msg;
  }

  lemma ReadyPush(c: Chip)
    requires Ready(c)
    ensures PushChip(c).rd.fifo == c.rd.fifo
  {
    hide Tick, RoomAfter, Draining, OnlyInput;
    DrainLoads(c);
    DrainStarts(c, WriteDword(Tick(c), ECAT_PRAM_WR_ADDR_LEN, WRITE_SETUP));
    RoomKeepsRd(DrainBegun(c));
    RoomPolled(DrainBegun(c));
    DrainingTick(RoomAfter(DrainBegun(c)));
  }

  lemma {:induction false} RoomKeepsRd(c: Chip)
    requires Draining(c)
    ensures RoomAfter(c).rd == c.rd
    decreases |c.pace|
  {
    hide Tick, Draining, OnlyInput, Unstarted;
    DrainingTick(c);
    PaceTick(c);
    if |Tick(c).wr.fifo| > IMAGE_BYTES && c.pace != [] {
      RoomKeepsRd(Tick(c));
    }
  }

  /** A call that finds most of the previous message in the FIFO: its third DWORD ends up where the new
      message should start. */
  lemma LateCall(c: Chip, msg: seq<byte>, n: nat)
    requires Ready(c) && c.pace == SLOW && c.wr.left == 8 && |c.wr.fifo| == IMAGE_BYTES && |msg| == IMAGE_BYTES
    requires n > |PushChip(StatusChip(c)).pace|
    ensures Slice(Ticks(SendChip(StatusChip(c), msg), n).esc, INPUT_IMAGE, IMAGE_BYTES)[0] == c.wr.fifo[8]
  {
    hide ReadChip, Tick, Ticks, WriteBytes, Slice, RoomAfter, Draining, DrainBegun, Unstarted;
    assert SLOW == [0, 1, 0] + [0, 1, 0, 0, 0, 0, 0];
    assert [0, 1, 0, 0, 0, 0, 0] == [0, 1, 0] + [0, 0, 0, 0];
    SlowRead(c, WDOG_STATUS, 1, [0, 1, 0, 0, 0, 0, 0]);
    ReadPasses(c, WDOG_STATUS, 1);
    var c1 := ReadChip(c, WDOG_STATUS, 1);
    SlowRead(c1, AL_STATUS_REG_0, 1, [0, 0, 0, 0]);
    ReadPasses(c1, AL_STATUS_REG_0, 1);
    var c2 := ReadChip(c1, AL_STATUS_REG_0, 1);
    assert c2.wr.fifo == c.wr.fifo[4..][4..] && c2.wr.fifo[0] == c.wr.fifo[8];
    assert [0, 0, 0, 0][..2] == [0, 0] && [0, 0, 0, 0][2..] == [0, 0];
    StalledBegin(c2);
    DrainBegins(c2);
    StalledPush(DrainBegun(c2));
    UnstartedAtPush(c2);
    FirstByteLands(PushChip(c2), msg, n);
  }

  lemma StalledPush(c: Chip)
    requires Draining(c) && c.pace == [0, 0] && |c.wr.fifo| <= IMAGE_BYTES
    ensures Tick(RoomAfter(c)).wr == c.wr
  {
    hide Tick, Draining;
    StalledTick(c);
    StalledTick(Tick(c));
  }

  const ONES: Message := [1, 1, 1, 1]
  const TWOS: Message := [2, 2, 2, 2]

  lemma FirstBytes()
    ensures MessageBytes(ONES)[8] == 1 && MessageBytes(TWOS)[0] == 2
  {
    MessageByteAt(ONES, 8);
    MessageByteAt(TWOS, 0);
  }
}
