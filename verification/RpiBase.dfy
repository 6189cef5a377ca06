// rpi_base: register access over SPI, process-RAM transfers, MainTask and the shared buffers.
module RpiBase {
  import opened Words
  import opened Lan9252
  import opened Spi
  import opened ChipFacts
  import OutputRing
  import Schedules
  import SequenceCounter

  /** The bytes of the four-byte union ULONG, low byte first, after the first n were received. */
  predicate LowBytes(v: Word32, bs: seq<byte>)
  {
    |bs| <= 4 && ToBytes(v, 4)[..|bs|] == bs
  }

  lemma UnionValue(bytes: seq<byte>, n: nat)
    requires |bytes| == 4 && n <= 4
    ensures FromBytes(bytes) < TWO_32 && LowBytes(FromBytes(bytes), bytes[..n])
  {
    SmallBytes(bytes);
    ToFromBytes(bytes);
  }

  /** Watchdog bit set and state OP: the outputs of the master are valid. */
  predicate Operational(esc: Esc)
  {
    Bit0(Peek(esc, WDOG_STATUS)) && Peek(esc, AL_STATUS_REG_0) % 16 == ESM_OP
  }

  /** The chip after one MainTask that sends these bytes. */
  function MainChip(c: Chip, bytes: seq<byte>): Chip
  {
    SendChip(if Operational(c.esc) then TakeChip(StatusChip(c)) else StatusChip(c), bytes)
  }

  /** The 32 bytes of process RAM the master writes. */
  function OutputImage(esc: Esc): (bs: seq<byte>)
    ensures |bs| == IMAGE_BYTES
  {
    Slice(esc, OUTPUT_IMAGE, IMAGE_BYTES)
  }

  /** The same 32 bytes as words. */
  function OutputMessage(esc: Esc): Message { BufferWords(OutputImage(esc)) }

  /** The outputs in a turn that is not operational. */
  function ZeroImage(): (bs: seq<byte>)
    ensures |bs| == IMAGE_BYTES
  {
    seq(IMAGE_BYTES, _ => 0)
  }

  class Driver {
    const bus: Bus
    var curqidx: nat                           // m_curqidx
    var curqoutidx: nat                        // m_curqoutidx
    var atomicCounter: Word32                  // m_atomiccounter
    const slots: array2<Word64>                // fromSlaveBufferIn, through its ul view
    const bufferIn: array<Word64>              // BufferIn, through its ul view
    const bufferOut: array<byte>               // BufferOut, through its Byte view
    const toApplication: array<byte>           // m_BufferOutEthToSlaveBuffer, through its Byte view

    // The two hand-offs as their step models see them, and the steps made so far:
    ghost var ring: OutputRing.State
    ghost var ringSteps: seq<OutputRing.Step>
    ghost var port: SequenceCounter.State
    ghost var portSteps: seq<SequenceCounter.Step>

    predicate Valid()
    {
      && slots.Length0 == OutputRing.QIN_SIZE && slots.Length1 == WORDS
      && bufferIn.Length == WORDS && bufferOut.Length == IMAGE_BYTES && toApplication.Length == IMAGE_BYTES
      && bufferOut != toApplication
    }

    /** The fields of the outbound hand-off are those of a run of its model, with exactly these steps. */
    ghost predicate OnRing()
      requires Valid()
      reads `curqidx, `curqoutidx, `ring, `ringSteps, slots, bufferIn
    {
      && ring == Schedules.Run(OutputRing.Apply, OutputRing.INITIAL, ringSteps)
      && |ring.slots| == OutputRing.QIN_SIZE
      && (forall i, k | 0 <= i < OutputRing.QIN_SIZE && 0 <= k < WORDS :: slots[i, k] == ring.slots[i][k])
      && curqidx == ring.curqidx && curqoutidx == ring.curqoutidx && bufferIn[..] == ring.bufferIn
      && curqoutidx < OutputRing.QIN_SIZE
      && (ring.sender.Idle? || ring.sender.Filling? ==> curqidx < OutputRing.QIN_SIZE)
    }

    /** The same for the inbound hand-off. */
    ghost predicate OnPort()
      requires Valid()
      reads `atomicCounter, `port, `portSteps, toApplication
    {
      && port == Schedules.Run(SequenceCounter.Apply, SequenceCounter.INITIAL, portSteps)
      && atomicCounter == port.counter && toApplication[..] == MessageBytes(port.shared)
    }

    /** Neither hand-off is in the middle of a call of this driver. */
    ghost predicate Between()
      reads `ring, `port
    {
      ring.sender.Idle? && ring.copier.Waiting? && port.publisher.Quiet?
    }

    /** What holds of every run holds of the driver. */
    lemma RingInv()
      requires Valid() && OnRing()
      ensures OutputRing.Inv(ring)
    {
      hide OutputRing.Inv, OutputRing.Apply, Schedules.Run;
      OutputRing.InitialInv();
      OutputRing.RunKeepsInv(OutputRing.INITIAL, ringSteps);
    }

    lemma PortInv()
      requires Valid() && OnPort()
      ensures SequenceCounter.Inv(port)
    {
      hide SequenceCounter.Inv, SequenceCounter.Apply, Schedules.Run, MessageBytes;
      SequenceCounter.InitialInv();
      SequenceCounter.RunKeepsInv(SequenceCounter.INITIAL, portSteps);
    }

    constructor (bus: Bus)
      ensures Valid() && OnRing() && OnPort() && Between() && this.bus == bus
      ensures ringSteps == [] && portSteps == []
      ensures fresh(slots) && fresh(bufferIn) && fresh(bufferOut) && fresh(toApplication)
      ensures bufferOut[..] == ZeroImage()
    {
      hide MessageBytes, OutputRing.Apply, SequenceCounter.Apply, OutputRing.FIVE_ZEROS, OutputRing.INITIAL;
      this.bus := bus;
      curqidx, curqoutidx, atomicCounter := 0, 0, 0;
      ring, ringSteps := OutputRing.INITIAL, [];
      port, portSteps := SequenceCounter.INITIAL, [];
      slots := new Word64[OutputRing.QIN_SIZE, WORDS]((_, _) => 0);
      bufferIn := new Word64[WORDS](_ => 0);
      bufferOut := new byte[IMAGE_BYTES](_ => 0);
      toApplication := new byte[IMAGE_BYTES](_ => 0);
      new;
      ZeroMessageBytes();
      OutputRing.InitialSlots();
      assert toApplication[..] == ZeroImage() && bufferOut[..] == ZeroImage();
      assert bufferIn[..] == ZERO_MESSAGE;
    }

    // ---- the outbound ring, application side ----

    /** Record one access of the outbound hand-off. */
    ghost method RingStep(step: OutputRing.Step)
      requires ring == Schedules.Run(OutputRing.Apply, OutputRing.INITIAL, ringSteps)
      modifies `ring, `ringSteps
      ensures ring == OutputRing.Apply(old(ring), step) && ringSteps == old(ringSteps) + [step]
      ensures ring == Schedules.Run(OutputRing.Apply, OutputRing.INITIAL, ringSteps)
    {
      hide OutputRing.Apply;
      Schedules.RunAppend(OutputRing.Apply, OutputRing.INITIAL, ringSteps, [step]);
      Schedules.RunLast(OutputRing.Apply, ring, step);
      ring := OutputRing.Apply(ring, step);
      ringSteps := ringSteps + [step];
    }

    /** fromSlaveBufferIn[m_curqidx].ul[i] = *source */
    method WriteSlotWord(i: nat, w: Word64)
      requires Valid() && OnRing() && ring.sender.Filling? && ring.sender.i == i < WORDS && ring.sender.msg[i] == w
      modifies slots, `ring, `ringSteps
      ensures OnRing() && ring == OutputRing.Apply(old(ring), OutputRing.WriteWord)
      ensures ringSteps == old(ringSteps) + [OutputRing.WriteWord]
      ensures ring.sender == OutputRing.Filling(old(ring.sender.msg), i + 1)
    {
      hide Schedules.Run;
      slots[curqidx, i] := w;
      RingStep(OutputRing.WriteWord);
    }

    /** m_curqoutidx = m_curqidx */
    method PublishIndex()
      requires Valid() && OnRing() && ring.sender.Filling? && ring.sender.i == WORDS
      modifies `curqoutidx, `ring, `ringSteps
      ensures OnRing() && ring == OutputRing.Apply(old(ring), OutputRing.Publish)
      ensures ringSteps == old(ringSteps) + [OutputRing.Publish] && ring.sender.Published?
    {
      hide Schedules.Run;
      curqoutidx := curqidx;
      RingStep(OutputRing.Publish);
    }

    /** m_curqidx++ */
    method AdvanceIndex()
      requires Valid() && OnRing() && ring.sender.Published?
      modifies `curqidx, `ring, `ringSteps
      ensures OnRing() && ring == OutputRing.Apply(old(ring), OutputRing.Advance)
      ensures ringSteps == old(ringSteps) + [OutputRing.Advance] && ring.sender.Advanced?
    {
      hide Schedules.Run;
      curqidx := curqidx + 1;
      RingStep(OutputRing.Advance);
    }

    /** if (m_curqidx >= QINSize) m_curqidx = 0 */
    method WrapIndex()
      requires Valid() && OnRing() && ring.sender.Advanced?
      modifies `curqidx, `ring, `ringSteps
      ensures OnRing() && ring == OutputRing.Apply(old(ring), OutputRing.Wrap)
      ensures ringSteps == old(ringSteps) + [OutputRing.Wrap] && ring.sender.Idle?
    {
      hide Schedules.Run;
      if curqidx >= OutputRing.QIN_SIZE {
        curqidx := 0;
      }
      RingStep(OutputRing.Wrap);
    }

    /** The word loop of send_output. */
    method FillSlot(source: array<Word64>)
      requires Valid() && OnRing() && source.Length >= WORDS
      requires ring.sender == OutputRing.Filling(source[..WORDS], 0)
      modifies slots, `ring, `ringSteps
      ensures OnRing() && ring.sender == OutputRing.Filling(source[..WORDS], WORDS)
      ensures ringSteps == old(ringSteps) + OutputRing.FILL
    {
      hide Schedules.Run, OutputRing.Apply, Driver.OnRing;
      for i := 0 to WORDS
        invariant OnRing() && ring.sender == OutputRing.Filling(source[..WORDS], i)
        invariant ringSteps == old(ringSteps) + OutputRing.FILL[..i]
      {
        assert OutputRing.FILL[..i + 1] == OutputRing.FILL[..i] + [OutputRing.WriteWord];
        WriteSlotWord(i, source[i]);
      }
      assert OutputRing.FILL[..WORDS] == OutputRing.FILL;
    }

    /** send_output: fill the slot at m_curqidx, then publish its index, then advance m_curqidx; in the
        model these are exactly the steps of one send. */
    method SendOutput(source: array<Word64>)
      requires Valid() && OnRing() && ring.sender.Idle? && source.Length >= WORDS
      modifies `curqidx, `curqoutidx, `ring, `ringSteps, slots
      ensures OnRing() && ringSteps == old(ringSteps) + OutputRing.SendSteps(source[..WORDS])
      ensures ring == OutputRing.SendEffect(old(ring), source[..WORDS])
    {
      hide Schedules.Run;
      ghost var m := source[..WORDS];
      OutputRing.SendRuns(ring, m);
      Schedules.RunAppend(OutputRing.Apply, OutputRing.INITIAL, ringSteps, OutputRing.SendSteps(m));
      RingStep(OutputRing.Call(m));
      FillSlot(source);
      PublishIndex();
      AdvanceIndex();
      WrapIndex();
      assert ringSteps == old(ringSteps) + OutputRing.SendSteps(m);
    }

    // ---- directly addressable registers ----

    /** The start of every frame: chip select low, command, address most significant byte first. */
    method SendHeader(command: byte, address: Word16)
      requires bus.Idle()
      modifies bus
      ensures bus.Valid() && bus.selected && bus.ops == old(bus.ops) && bus.base == Tick(old(bus.chip))
      ensures bus.mosi == [command, High(address), Low(address)] && |bus.miso| == 3
    {
      bus.SelectLow();
      var r := bus.Transfer(command);
      r := bus.Transfer(High(address));
      r := bus.Transfer(Low(address));
    }

    /** The dummy bytes of a read frame; the answers go to the low bytes of the union. */
    method ReceiveBytes(ghost address: Word16, len: byte, union: array<byte>)
      requires bus.Valid() && bus.selected && bus.mosi == Encode(Read(address, 0))
      requires len as int <= union.Length
      modifies bus`chip, bus`mosi, bus`miso, bus`trace, union
      ensures bus.Valid() && bus.mosi == Encode(Read(address, len))
      ensures (bus.chip, union[..len]) == ReadBytes(bus.base, address, len)
    {
      hide *;
      Header(address);
      bus.Fed();
      for i := 0 to len
        invariant bus.Valid() && bus.mosi == Encode(Read(address, i)) && |bus.miso| == i + 3
        invariant union[..i] == bus.miso[3..]
      {
        var b := bus.Transfer(DUMMY_BYTE);
        union[i] := b;
        ReadStep(bus.base, address, i);
        assert union[..i + 1] == union[..i] + [b];
      }
      FeedRead(bus.base, address, len);
      bus.Fed();
    }

    /** Read_Reg: the low Len bytes of the result are the answered bytes; the others are whatever
        the uninitialised union held. */
    method ReadReg(address: Word16, len: byte) returns (result: Word32)
      requires bus.Idle() && len <= 4
      modifies bus
      ensures bus.Idle() && bus.ops == old(bus.ops) + [Read(address, len)]
      ensures bus.chip == ReadBytes(Tick(old(bus.chip)), address, len).0
      ensures LowBytes(result, ReadBytes(Tick(old(bus.chip)), address, len).1)
    {
      hide *;
      var union := new byte[4];
      Header(address);
      SendHeader(COMM_SPI_READ, address);
      ReceiveBytes(address, len, union);
      bus.SelectHigh(Read(address, len));
      UnionValue(union[..], len);
      assert union[..][..len] == union[..len];
      result := FromBytes(union[..]);
    }

    /** The data bytes of a write frame. */
    method SendBytes(ghost address: Word16, data: seq<byte>)
      requires bus.Valid() && bus.selected && bus.mosi == Encode(Write(address, []))
      modifies bus`chip, bus`mosi, bus`miso, bus`trace
      ensures bus.Valid() && bus.mosi == Encode(Write(address, data))
      ensures bus.chip == WriteBytes(bus.base, address, data)
    {
      hide *;
      assert data[..0] == [];
      for i := 0 to |data|
        invariant bus.Valid() && bus.mosi == Encode(Write(address, data[..i]))
      {
        WriteStep(address, data[..i], data[i]);
        var r := bus.Transfer(data[i]);
        assert data[..i + 1] == data[..i] + [data[i]];
      }
      assert data[..|data|] == data;
      FeedWrite(bus.base, address, data);
      bus.Fed();
    }

    /** Write_Reg: one DWORD, truncated to 32 bits. */
    method WriteReg(address: Word16, dataOut: nat)
      requires bus.Idle()
      modifies bus
      ensures bus.Idle() && bus.ops == old(bus.ops) + [Write(address, ToBytes(dataOut, 4))]
      ensures bus.chip == WriteDword(Tick(old(bus.chip)), address, ToBytes(dataOut, 4))
    {
      hide *;
      var data := ToBytes(dataOut, 4);
      Header(address);
      SendHeader(COMM_SPI_WRITE, address);
      SendBytes(address, data);
      RegisterWrite(bus.base, address, data);
      bus.SelectHigh(Write(address, data));
    }

    /** One poll of a status register: all four of its bytes. */
    method PollReg(address: Word16) returns (bytes: seq<byte>)
      requires bus.Idle() && ECAT_PRAM_WR_DATA <= address && address % 4 == 0
      modifies bus
      ensures bus.Idle() && bus.chip == Tick(old(bus.chip)) && bytes == RegBytes(bus.chip, address)
      ensures Outbound(bus.ops) == Outbound(old(bus.ops))
    {
      hide Tick, Outbound, Bus.Valid, Bus.Idle, ReadBytes, RegBytes;
      RegisterRead(Tick(bus.chip), address, 4);
      OutboundAppend(bus.ops, Read(address, 4));
      var temp := ReadReg(address, 4);
      bytes := ToBytes(temp, 4);
      assert RegBytes(bus.chip, address)[..4] == RegBytes(bus.chip, address) && bytes[..4] == bytes;
    }

    // ---- ESC registers, through the CSR interface ----

    /** The polling loop of Read_Reg_Wait: it ends when the chip has executed the read. */
    method AwaitCsrRead(ghost c0: Chip, ghost address: Word16, ghost len: byte)
      requires bus.Idle() && CsrReading(c0, bus.chip, address, len)
      modifies bus
      ensures bus.Idle() && CsrReading(c0, bus.chip, address, len) && !bus.chip.csr.busy
      ensures bus.chip == IdleAfter(old(bus.chip))
      ensures Outbound(bus.ops) == Outbound(old(bus.ops))
    {
      hide Tick, RegBytes, WrProgress, Outbound, CsrReading;
      CsrReadingTick(c0, bus.chip, address, len);
      var temp := PollReg(ECAT_CSR_CMD);
      CsrBusyFlag(bus.chip);
      while Bit7(temp[3])
        invariant bus.Idle() && CsrReading(c0, bus.chip, address, len)
        invariant |temp| == 4 && (Bit7(temp[3]) <==> bus.chip.csr.busy)
        invariant IdleAfter(old(bus.chip)) == if bus.chip.csr.busy then IdleAfter(bus.chip) else bus.chip
        invariant Outbound(bus.ops) == Outbound(old(bus.ops))
        decreases |bus.chip.pace|, if Bit7(temp[3]) then 1 else 0
      {
        CsrReadingTick(c0, bus.chip, address, len);
        PaceTick(bus.chip);
        temp := PollReg(ECAT_CSR_CMD);
        CsrBusyFlag(bus.chip);
      }
    }

    /** Read_Reg_Wait: the low Len bytes of the result are the Len bytes of ESC memory at Address. */
    method ReadRegWait(address: Word16, len: byte) returns (result: Word32)
      requires bus.Idle() && Quiet(bus.chip) && len <= 4 && Clear(bus.chip, address, len)
      modifies bus
      ensures bus.Idle() && Passed(old(bus.chip), bus.chip)
      ensures LowBytes(result, Slice(old(bus.chip.esc), address, len))
      ensures bus.chip == ReadChip(old(bus.chip), address, len)
      ensures Outbound(bus.ops) == Outbound(old(bus.ops))
    {
      hide Tick, CsrReading, Passed, ReadBytes, Outbound, IdleAfter;
      ghost var c0 := bus.chip;
      var cmd := CsrCommand(address, len, ESC_READ);
      ToFromBytes(cmd);
      OutboundAppend(bus.ops, Write(ECAT_CSR_CMD, cmd));
      CsrReadStarts(c0, address, len);
      WriteReg(ECAT_CSR_CMD, FromBytes(cmd));
      AwaitCsrRead(c0, address, len);
      CsrReadEnds(c0, bus.chip, address, len);
      OutboundAppend(bus.ops, Read(ECAT_CSR_DATA, len));
      result := ReadReg(ECAT_CSR_DATA, len);
    }

    /** The polling loop of Write_Reg_Wait: it ends when the chip has executed the write. */
    method AwaitCsrWrite(ghost c0: Chip, ghost address: Word16, ghost data: seq<byte>)
      requires |data| == 4 && Clear(c0, address, 4)
      requires bus.Idle() && CsrWriting(c0, bus.chip, address, data)
      modifies bus
      ensures bus.Idle() && CsrWriting(c0, bus.chip, address, data) && !bus.chip.csr.busy
      ensures Outbound(bus.ops) == Outbound(old(bus.ops))
    {
      hide Tick, RegBytes, WrProgress, Outbound;
      CsrWritingTick(c0, bus.chip, address, data);
      var temp := PollReg(ECAT_CSR_CMD);
      CsrBusyFlag(bus.chip);
      while Bit7(temp[3])
        invariant bus.Idle() && CsrWriting(c0, bus.chip, address, data)
        invariant |temp| == 4 && (Bit7(temp[3]) <==> bus.chip.csr.busy)
        invariant Outbound(bus.ops) == Outbound(old(bus.ops))
        decreases |bus.chip.pace|, if Bit7(temp[3]) then 1 else 0
      {
        CsrWritingTick(c0, bus.chip, address, data);
        PaceTick(bus.chip);
        temp := PollReg(ECAT_CSR_CMD);
        CsrBusyFlag(bus.chip);
      }
    }

    /** Write_Reg_Wait: ESC memory holds the four bytes of DataOut at Address. */
    method WriteRegWait(address: Word16, dataOut: nat)
      requires bus.Idle() && Quiet(bus.chip) && Clear(bus.chip, address, 4)
      modifies bus
      ensures bus.Idle()
      ensures var c0 := old(bus.chip);
              Passed(c0.(esc := Store(c0.esc, address, ToBytes(dataOut, 4))), bus.chip)
      ensures Outbound(bus.ops) == Outbound(old(bus.ops))
    {
      hide Tick, RamProgress;
      ghost var c0 := bus.chip;
      ghost var data := ToBytes(dataOut, 4);
      var cmd := CsrCommand(address, 4, ESC_WRITE);
      ToFromBytes(cmd);
      CsrLoads(c0, address, data);
      OutboundAppend(bus.ops, Write(ECAT_CSR_DATA, data));
      WriteReg(ECAT_CSR_DATA, dataOut);
      CsrWriteStarts(c0, bus.chip, address, data);
      OutboundAppend(bus.ops, Write(ECAT_CSR_CMD, cmd));
      WriteReg(ECAT_CSR_CMD, FromBytes(cmd));
      AwaitCsrWrite(c0, address, data);
    }

    /** Write_Reg_Wait, then Read_Reg_Wait at the same address: what was written comes back, modulo
        256^Len, for every delay of the chip. */
    method WriteThenRead(address: Word16, dataOut: nat, len: byte) returns (result: Word32)
      requires bus.Idle() && Quiet(bus.chip) && len <= 4 && Clear(bus.chip, address, 4)
      modifies bus
      ensures bus.Idle() && result % Pow256(len) == dataOut % Pow256(len)
    {
      hide WrProgress, Store, Slice, ToBytes, ReadChip, Outbound, Bus.Valid, Bus.Idle;
      ghost var c := bus.chip.(esc := Store(bus.chip.esc, address, ToBytes(dataOut, 4)));
      StoreSlice(bus.chip.esc, address, ToBytes(dataOut, 4));
      WriteRegWait(address, dataOut);
      ghost var c1 := bus.chip;
      StoredLowBytes(c, c1, address, dataOut, len);
      result := ReadRegWait(address, len);
      SameLowBytes(result, dataOut, len);
    }

    // ---- process RAM ----

    /** The polling loop of SPIReadProcRamFifo: it ends when the whole image is in the read FIFO. */
    method AwaitImage(ghost c0: Chip, ghost image: seq<byte>)
      requires bus.Idle() && Fetching(bus.chip, image) && WrProgress(c0, bus.chip)
      requires bus.chip.sys == c0.sys && bus.chip.wakes == c0.wakes
      modifies bus
      ensures bus.Idle() && Fetching(bus.chip, image) && WrProgress(c0, bus.chip) && bus.chip.rd.left == 0
      ensures bus.chip.sys == c0.sys && bus.chip.wakes == c0.wakes
      ensures bus.chip == ImageAfter(old(bus.chip))
      ensures Outbound(bus.ops) == Outbound(old(bus.ops))
    {
      hide Tick, RegBytes, WrProgress, Fetching, Outbound;
      FetchingTick(bus.chip, image);
      WrProgressTransitive(c0, bus.chip, Tick(bus.chip));
      var temp := PollReg(ECAT_PRAM_RD_CMD);
      FetchedExactly(bus.chip, image);
      while !Bit0(temp[0]) || temp[1] != 8
        invariant bus.Idle() && Fetching(bus.chip, image) && WrProgress(c0, bus.chip)
        invariant bus.chip.sys == c0.sys && bus.chip.wakes == c0.wakes
        invariant |temp| == 4 && (Bit0(temp[0]) && temp[1] == 8 <==> bus.chip.rd.left == 0)
        invariant ImageAfter(old(bus.chip)) == if bus.chip.rd.left > 0 then ImageAfter(bus.chip) else bus.chip
        invariant Outbound(bus.ops) == Outbound(old(bus.ops))
        decreases |bus.chip.pace|, if bus.chip.rd.left > 0 then 1 else 0
      {
        FetchingTick(bus.chip, image);
        WrProgressTransitive(c0, bus.chip, Tick(bus.chip));
        PaceTick(bus.chip);
        temp := PollReg(ECAT_PRAM_RD_CMD);
        FetchedExactly(bus.chip, image);
      }
    }

    /** Record one access of the inbound hand-off. */
    ghost method PortStep(step: SequenceCounter.Step)
      requires port == Schedules.Run(SequenceCounter.Apply, SequenceCounter.INITIAL, portSteps)
      modifies `port, `portSteps
      ensures port == SequenceCounter.Apply(old(port), step) && portSteps == old(portSteps) + [step]
      ensures port == Schedules.Run(SequenceCounter.Apply, SequenceCounter.INITIAL, portSteps)
    {
      hide SequenceCounter.Apply;
      Schedules.RunAppend(SequenceCounter.Apply, SequenceCounter.INITIAL, portSteps, [step]);
      Schedules.RunLast(SequenceCounter.Apply, port, step);
      port := SequenceCounter.Apply(port, step);
      portSteps := portSteps + [step];
    }

    /** The first m_atomiccounter++ */
    method BeginPublication()
      requires Valid() && OnPort() && port.publisher.Quiet?
      modifies `atomicCounter, `port, `portSteps
      ensures OnPort() && portSteps == old(portSteps) + [SequenceCounter.Begin]
      ensures port.publisher.Transferring?
    {
      hide Schedules.Run, MessageBytes;
      atomicCounter := (atomicCounter + 1) % TWO_32;
      PortStep(SequenceCounter.Begin);
    }

    /** The second one. */
    method EndPublication()
      requires Valid() && OnPort()
      requires port.publisher.Storing? && port.publisher.done == SequenceCounter.ALL_WORDS
      modifies `atomicCounter, `port, `portSteps
      ensures OnPort() && portSteps == old(portSteps) + [SequenceCounter.End]
    {
      hide Schedules.Run, MessageBytes;
      atomicCounter := (atomicCounter + 1) % TWO_32;
      PortStep(SequenceCounter.End);
    }

    /** Word k of m_BufferOutEthToSlaveBuffer = BufferOut */
    method PublishWord(k: nat, ghost m: Message)
      requires Valid() && OnPort() && k < WORDS && bufferOut[..] == MessageBytes(m)
      requires port.publisher == SequenceCounter.Storing(m, SequenceCounter.FirstWords(k))
      modifies toApplication, `port, `portSteps
      ensures OnPort() && portSteps == old(portSteps) + [SequenceCounter.StoreWord(k)]
      ensures port.publisher == SequenceCounter.Storing(m, SequenceCounter.FirstWords(k + 1))
    {
      hide Schedules.Run, MessageBytes;
      for j := 0 to 8
        modifies toApplication
        invariant forall i | 0 <= i < IMAGE_BYTES ::
                    toApplication[i] == if 8 * k <= i < 8 * k + j then bufferOut[i] else old(toApplication[i])
      {
        toApplication[8 * k + j] := bufferOut[8 * k + j];
      }
      SequenceCounter.FirstWordsHave(k, k);
      WordReplaced(port.shared, m, k, old(toApplication[..]), toApplication[..]);
      PortStep(SequenceCounter.StoreWord(k));
    }

    /** m_BufferOutEthToSlaveBuffer = BufferOut */
    method PublishOutputs(ghost m: Message)
      requires Valid() && OnPort() && port.publisher.Transferring? && bufferOut[..] == MessageBytes(m)
      modifies toApplication, `port, `portSteps
      ensures OnPort() && portSteps == old(portSteps) + ([SequenceCounter.StartStore(m)] + SequenceCounter.STORE)
      ensures port.publisher == SequenceCounter.Storing(m, SequenceCounter.ALL_WORDS)
      ensures toApplication[..] == bufferOut[..]
    {
      hide Schedules.Run, MessageBytes, SequenceCounter.FirstWords;
      PortStep(SequenceCounter.StartStore(m));
      SequenceCounter.FirstWordsEnds();
      for k := 0 to WORDS
        invariant OnPort() && port.publisher == SequenceCounter.Storing(m, SequenceCounter.FirstWords(k))
        invariant portSteps == old(portSteps) + ([SequenceCounter.StartStore(m)] + SequenceCounter.STORE[..k])
      {
        assert SequenceCounter.STORE[..k + 1] == SequenceCounter.STORE[..k] + [SequenceCounter.StoreWord(k)];
        PublishWord(k, m);
      }
      assert SequenceCounter.STORE[..WORDS] == SequenceCounter.STORE;
      PortInv();
      SequenceCounter.StoredWhole(port);
    }

    /** The 32-byte read frame of SPIReadProcRamFifo, and the publication inside it. */
    method TakeImage(ghost c0: Chip, ghost image: seq<byte>, ghost m: Message)
      requires Valid() && bus.Idle() && Fetching(bus.chip, image) && bus.chip.rd.left == 0 && WrProgress(c0, bus.chip)
      requires OnPort() && port.publisher.Transferring? && image == MessageBytes(m)
      modifies bus, bufferOut, toApplication, `port, `portSteps
      ensures bus.Idle() && bufferOut[..] == image && toApplication[..] == image
      ensures OnPort() && portSteps == old(portSteps) + ([SequenceCounter.StartStore(m)] + SequenceCounter.STORE)
      ensures port.publisher == SequenceCounter.Storing(m, SequenceCounter.ALL_WORDS)
      ensures Quiet(bus.chip) && bus.chip.rd.fifo == [] && WrProgress(c0, bus.chip)
      ensures bus.chip.sys == old(bus.chip.sys) && bus.chip.wakes == old(bus.chip.wakes)
      ensures bus.chip == ReadBytes(Tick(old(bus.chip)), ECAT_PRAM_RD_DATA, IMAGE_BYTES).0
      ensures Outbound(bus.ops) == Outbound(old(bus.ops))
    {
      hide Tick, WrProgress, Fetching, Quiet, ReadBytes, Encode, Outbound, Bus.Valid, Bus.Idle;
      hide Driver.OnPort, MessageBytes;
      ImageTaken(c0, bus.chip, image);
      OutboundAppend(bus.ops, Read(ECAT_PRAM_RD_DATA, IMAGE_BYTES));
      Header(ECAT_PRAM_RD_DATA);
      SendHeader(COMM_SPI_READ, ECAT_PRAM_RD_DATA);
      ReceiveBytes(ECAT_PRAM_RD_DATA, IMAGE_BYTES, bufferOut);
      assert bufferOut[..IMAGE_BYTES] == bufferOut[..];
      PublishOutputs(m);
      bus.SelectHigh(Read(ECAT_PRAM_RD_DATA, IMAGE_BYTES));
    }

    /** The two commands that set the output image on its way to the read FIFO. */
    method RequestImage()
      requires bus.Idle() && Quiet(bus.chip) && bus.chip.rd.fifo == [] && Clear(bus.chip, OUTPUT_IMAGE, IMAGE_BYTES)
      modifies bus
      ensures bus.Idle() && Fetching(bus.chip, Slice(old(bus.chip.esc), OUTPUT_IMAGE, IMAGE_BYTES))
      ensures WrProgress(old(bus.chip), bus.chip)
      ensures bus.chip.sys == old(bus.chip.sys) && bus.chip.wakes == old(bus.chip.wakes)
      ensures bus.chip == FetchBegun(old(bus.chip))
      ensures Outbound(bus.ops) == Outbound(old(bus.ops))
    {
      hide Tick, WrProgress, FetchLoaded;
      ghost var c0 := bus.chip;
      TransferWords();
      FetchLoads(c0);
      OutboundAppend(bus.ops, Write(ECAT_PRAM_RD_ADDR_LEN, READ_SETUP));
      WriteReg(ECAT_PRAM_RD_ADDR_LEN, 0x0020_1000);
      FetchStarts(c0, bus.chip);
      OutboundAppend(bus.ops, Write(ECAT_PRAM_RD_CMD, START));
      WriteReg(ECAT_PRAM_RD_CMD, 0x8000_0000);
    }

    /** Request the output image, wait for it, and take it. */
    method TransferImage(ghost m: Message)
      requires Valid() && bus.Idle() && Ready(bus.chip) && Clear(bus.chip, OUTPUT_IMAGE, IMAGE_BYTES)
      requires bus.chip.rd.fifo == [] && OnPort() && port.publisher.Transferring?
      requires MessageBytes(m) == Slice(bus.chip.esc, OUTPUT_IMAGE, IMAGE_BYTES)
      modifies bus, bufferOut, toApplication, `port, `portSteps
      ensures bus.Idle() && Ready(bus.chip) && bus.chip.rd.fifo == [] && WrProgress(old(bus.chip), bus.chip)
      ensures bus.chip.sys == old(bus.chip.sys) && bus.chip.wakes == old(bus.chip.wakes)
      ensures bufferOut[..] == toApplication[..] == MessageBytes(m)
      ensures OnPort() && portSteps == old(portSteps) + ([SequenceCounter.StartStore(m)] + SequenceCounter.STORE)
      ensures port.publisher == SequenceCounter.Storing(m, SequenceCounter.ALL_WORDS)
      ensures bus.chip == TakeChip(old(bus.chip))
      ensures Outbound(bus.ops) == Outbound(old(bus.ops))
    {
      hide Tick, WrProgress, Fetching, Outbound, Clear, Slice, FetchBegun, ImageAfter, ReadBytes;
      hide Driver.OnPort, MessageBytes;
      ghost var c0 := bus.chip;
      ghost var image := Slice(c0.esc, OUTPUT_IMAGE, IMAGE_BYTES);
      RequestImage();
      AwaitImage(c0, image);
      TakeImage(c0, image, m);
      ProgressKeepsWindow(c0, bus.chip);
    }

    /** SPIReadProcRamFifo: count, copy the 32 bytes of the output image, publish them, and count again;
        in the model these are exactly the steps of one publication. */
    method SpiReadProcRamFifo()
      requires Valid() && bus.Idle() && Ready(bus.chip) && Clear(bus.chip, OUTPUT_IMAGE, IMAGE_BYTES)
      requires bus.chip.rd.fifo == [] && OnPort() && port.publisher.Quiet?
      modifies `atomicCounter, `port, `portSteps, bus, bufferOut, toApplication
      ensures bus.Idle() && Ready(bus.chip) && bus.chip.rd.fifo == [] && WrProgress(old(bus.chip), bus.chip)
      ensures bus.chip.sys == old(bus.chip.sys) && bus.chip.wakes == old(bus.chip.wakes)
      ensures bufferOut[..] == toApplication[..] == Slice(old(bus.chip.esc), 0x1000, 32)
      ensures var m := OutputMessage(old(bus.chip.esc));
              && MessageBytes(m) == Slice(old(bus.chip.esc), 0x1000, 32)
              && OnPort() && portSteps == old(portSteps) + SequenceCounter.PublishSteps(m)
              && port == SequenceCounter.PublishEffect(old(port), m) && port.publisher.Quiet?
      ensures bus.chip == TakeChip(old(bus.chip))
      ensures Outbound(bus.ops) == Outbound(old(bus.ops))
    {
      hide Tick, WrProgress, Outbound, Clear, Slice, Ready, MessageBytes, TakeChip, OutputMessage, Bus.Valid, Bus.Idle;
      hide Driver.OnPort, SequenceCounter.PublishEffect;
      ghost var m := OutputMessage(bus.chip.esc);
      OutputBytes(bus.chip.esc);
      PortRuns(m);
      BeginPublication();
      TransferImage(m);
      EndPublication();
      assert portSteps == old(portSteps) + SequenceCounter.PublishSteps(m) by {
        var stores := [SequenceCounter.StartStore(m)] + SequenceCounter.STORE;
        assert [SequenceCounter.Begin] + stores + [SequenceCounter.End] == SequenceCounter.PublishSteps(m);
      }
      PortIsRun();
    }

    /** Where the run is after a publication. */
    lemma PortRuns(m: Message)
      requires Valid() && OnPort() && port.publisher.Quiet?
      ensures Schedules.Run(SequenceCounter.Apply, SequenceCounter.INITIAL, portSteps + SequenceCounter.PublishSteps(m))
              == SequenceCounter.PublishEffect(port, m)
      ensures SequenceCounter.PublishEffect(port, m).publisher.Quiet?
    {
      hide Schedules.Run, SequenceCounter.PublishSteps, MessageBytes;
      SequenceCounter.PublishRuns(port, m);
      Schedules.RunAppend(SequenceCounter.Apply, SequenceCounter.INITIAL, portSteps, SequenceCounter.PublishSteps(m));
    }

    lemma PortIsRun()
      requires Valid() && OnPort()
      ensures port == Schedules.Run(SequenceCounter.Apply, SequenceCounter.INITIAL, portSteps)
    {
      hide Schedules.Run, MessageBytes;
    }

    /** The polling loop of SPIWriteProcRamFifo: it ends when the write FIFO has room for 32 bytes. */
    method AwaitRoom()
      requires bus.Idle() && Draining(bus.chip)
      modifies bus
      ensures bus.Idle() && Draining(bus.chip) && |bus.chip.wr.fifo| <= IMAGE_BYTES
      ensures bus.chip.rd == old(bus.chip.rd)
      ensures bus.chip.sys == old(bus.chip.sys) && bus.chip.wakes == old(bus.chip.wakes)
      ensures bus.chip == RoomAfter(old(bus.chip))
      ensures old(Unstarted(bus.chip)) ==> Unstarted(bus.chip)
      ensures OnlyInput(old(bus.chip.esc), bus.chip.esc)
      ensures Outbound(bus.ops) == Outbound(old(bus.ops))
    {
      hide Tick, RegBytes, RamProgress, Outbound, OnlyInput, Unstarted, Bus.Valid, Bus.Idle, Quiet;
      DrainingTick(bus.chip);
      var temp := PollReg(ECAT_PRAM_WR_CMD);
      RoomExactly(bus.chip);
      while !Bit0(temp[0]) || temp[1] < 8
        invariant bus.Idle() && Draining(bus.chip)
        invariant bus.chip.rd == old(bus.chip.rd)
        invariant bus.chip.sys == old(bus.chip.sys) && bus.chip.wakes == old(bus.chip.wakes)
        invariant RoomAfter(old(bus.chip)) == if |bus.chip.wr.fifo| > IMAGE_BYTES then RoomAfter(bus.chip) else bus.chip
        invariant OnlyInput(old(bus.chip.esc), bus.chip.esc)
        invariant old(Unstarted(bus.chip)) ==> Unstarted(bus.chip)
        invariant |temp| == 4 && (Bit0(temp[0]) && temp[1] >= 8 <==> |bus.chip.wr.fifo| <= IMAGE_BYTES)
        invariant Outbound(bus.ops) == Outbound(old(bus.ops))
        decreases |bus.chip.pace|, if |bus.chip.wr.fifo| > IMAGE_BYTES then 1 else 0
      {
        DrainingTick(bus.chip);
        OnlyInputTransitive(old(bus.chip.esc), bus.chip.esc, Tick(bus.chip).esc);
        PaceTick(bus.chip);
        temp := PollReg(ECAT_PRAM_WR_CMD);
        RoomExactly(bus.chip);
      }
    }

    /** The structure copy BufferIn = fromSlaveBufferIn[m_curqoutidx]: in the model, the steps of one copy. */
    method CopySlot()
      requires Valid() && OnRing() && ring.copier.Waiting?
      requires ring.sender.Filling? && ring.published == [] ==> ring.sender.i == 0
      modifies bufferIn, `ring, `ringSteps
      ensures OnRing() && ringSteps == old(ringSteps) + OutputRing.COPY
      ensures ring == OutputRing.CopyEffect(old(ring)) && bufferIn[..] == Latest(old(ring.published))
      ensures ring.sender == old(ring.sender) && ring.copier.Waiting? && ring.published == old(ring.published)
    {
      hide Schedules.Run, OutputRing.Inv;
      RingInv();
      OutputRing.CopyRuns(ring);
      OutputRing.SelectedSlot(ring);
      Schedules.RunAppend(OutputRing.Apply, OutputRing.INITIAL, ringSteps, OutputRing.COPY);
      var slot := curqoutidx;
      RingStep(OutputRing.Sample);
      ghost var done: set<nat> := {};
      for k := 0 to WORDS
        invariant OnRing() && ring.copier == OutputRing.Copying(slot, done) && (forall j | j in done :: j < k)
        invariant forall j | 0 <= j < k :: j in done
        invariant ringSteps == old(ringSteps) + OutputRing.COPY[..k + 1]
      {
        assert OutputRing.COPY[..k + 2] == OutputRing.COPY[..k + 1] + [OutputRing.CopyWord(k)];
        CopySlotWord(slot, k);
        done := done + {k};
      }
      RingStep(OutputRing.Finish);
      assert OutputRing.COPY[..WORDS + 1] + [OutputRing.Finish] == OutputRing.COPY;
    }

    /** Word k of the structure copy. */
    method CopySlotWord(slot: nat, k: nat)
      requires Valid() && OnRing() && k < WORDS && slot < OutputRing.QIN_SIZE
      requires ring.copier.Copying? && ring.copier.slot == slot && k !in ring.copier.done
      modifies bufferIn, `ring, `ringSteps
      ensures OnRing() && ringSteps == old(ringSteps) + [OutputRing.CopyWord(k)]
      ensures ring.copier == OutputRing.Copying(slot, old(ring.copier.done) + {k})
    {
      hide Schedules.Run;
      bufferIn[k] := slots[slot, k];
      RingStep(OutputRing.CopyWord(k));
    }

    /** The two commands that start a transfer to the input image. */
    method RequestRoom()
      requires bus.Idle() && Quiet(bus.chip) && |bus.chip.wr.fifo| <= FIFO_BYTES && Window(bus.chip)
      modifies bus
      ensures bus.Idle() && Draining(bus.chip)
      ensures bus.chip.rd == old(bus.chip.rd)
      ensures bus.chip.sys == old(bus.chip.sys) && bus.chip.wakes == old(bus.chip.wakes)
      ensures old(bus.chip.wr.fifo) == [] ==> Unstarted(bus.chip)
      ensures bus.chip == DrainBegun(old(bus.chip))
      ensures OnlyInput(old(bus.chip.esc), bus.chip.esc)
      ensures Outbound(bus.ops) == Outbound(old(bus.ops))
    {
      hide Tick, RamProgress, OnlyInput;
      TransferWords();
      ghost var c0 := bus.chip;
      DrainLoads(c0);
      OutboundAppend(bus.ops, Write(ECAT_PRAM_WR_ADDR_LEN, WRITE_SETUP));
      WriteReg(ECAT_PRAM_WR_ADDR_LEN, 0x0020_1200);
      DrainStarts(c0, bus.chip);
      OutboundAppend(bus.ops, Write(ECAT_PRAM_WR_CMD, START));
      WriteReg(ECAT_PRAM_WR_CMD, 0x8000_0000);
    }

    /** The 32-byte write frame. */
    method PushImage(bytes: seq<byte>)
      requires bus.Idle() && Draining(bus.chip) && |bus.chip.wr.fifo| <= IMAGE_BYTES && |bytes| == IMAGE_BYTES
      modifies bus
      ensures bus.Idle() && Quiet(bus.chip) && |bus.chip.wr.fifo| <= FIFO_BYTES && Window(bus.chip)
      ensures bus.chip.rd == old(bus.chip.rd)
      ensures bus.chip.sys == old(bus.chip.sys) && bus.chip.wakes == old(bus.chip.wakes)
      ensures old(Unstarted(bus.chip)) ==> Landing(bus.chip, INPUT_IMAGE, bytes)
      ensures bus.chip == WriteBytes(Tick(old(bus.chip)), ECAT_PRAM_WR_DATA, bytes)
      ensures OnlyInput(old(bus.chip.esc), bus.chip.esc)
      ensures Outbound(bus.ops) == Outbound(old(bus.ops)) + [Write(ECAT_PRAM_WR_DATA, bytes)]
      ensures bus.ops != [] && bus.ops[|bus.ops| - 1] == Write(ECAT_PRAM_WR_DATA, bytes)
    {
      hide Tick, RamProgress, Encode, Outbound, Bus.Valid, Bus.Idle, WriteBytes;
      hide Landing, Window, Draining, Unstarted, Quiet, OnlyInput;
      DrainingTick(bus.chip);
      PushLands(Tick(bus.chip), bytes);
      OutboundAppend(bus.ops, Write(ECAT_PRAM_WR_DATA, bytes));
      Header(ECAT_PRAM_WR_DATA);
      SendHeader(COMM_SPI_WRITE, ECAT_PRAM_WR_DATA);
      SendBytes(ECAT_PRAM_WR_DATA, bytes);
      bus.SelectHigh(Write(ECAT_PRAM_WR_DATA, bytes));
    }

    /** SPIWriteProcRamFifo: send the selected slot to the input image, never overrunning the FIFO. */
    method SpiWriteProcRamFifo()
      requires Valid() && bus.Idle() && Ready(bus.chip) && OnRing() && ring.copier.Waiting?
      requires ring.sender.Filling? && ring.published == [] ==> ring.sender.i == 0
      modifies bus, bufferIn, `ring, `ringSteps
      ensures bus.Idle() && Ready(bus.chip)
      ensures OnRing() && ringSteps == old(ringSteps) + OutputRing.COPY && ring == OutputRing.CopyEffect(old(ring))
      ensures bus.chip.sys == old(bus.chip.sys) && bus.chip.wakes == old(bus.chip.wakes)
      ensures ring.sender == old(ring.sender) && ring.copier.Waiting? && ring.published == old(ring.published)
      ensures bus.chip.rd == old(bus.chip.rd)
      ensures var message := Latest(old(ring.published));
              && bufferIn[..] == message && bus.chip == SendChip(old(bus.chip), MessageBytes(message))
              && Outbound(bus.ops) == Outbound(old(bus.ops)) + [Write(0x0020, MessageBytes(message))]
              && bus.ops != [] && bus.ops[|bus.ops| - 1] == Write(0x0020, MessageBytes(message))
              && (old(bus.chip.wr.fifo) == [] ==> Landing(bus.chip, 0x1200, MessageBytes(message)))
      ensures OnlyInput(old(bus.chip.esc), bus.chip.esc)
    {
      hide OnlyInput, Landing, Draining, Unstarted, Outbound, MessageBytes, Bus.Valid, Bus.Idle;
      hide Tick, RoomAfter, DrainBegun, WriteBytes, Driver.OnRing, OutputRing.CopyEffect;
      ghost var e0 := bus.chip.esc;
      CopySlot();
      RequestRoom();
      ghost var e1 := bus.chip.esc;
      AwaitRoom();
      ghost var e2 := bus.chip.esc;
      OnlyInputTransitive(e0, e1, e2);
      PushImage(MessageBytes(bufferIn[..]));
      OnlyInputTransitive(e0, e2, bus.chip.esc);
    }

    // ---- the cyclic task ----

    /** BufferOut.ul[i] = w: eight bytes through the union. */
    method StoreOutputWord(i: nat, w: Word64)
      requires Valid() && i < WORDS
      modifies bufferOut
      ensures forall k | 0 <= k < IMAGE_BYTES ::
                bufferOut[k] == if 8 * i <= k < 8 * i + 8 then ToBytes(w, 8)[k - 8 * i] else old(bufferOut[k])
    {
      for j := 0 to 8
        invariant forall k | 0 <= k < IMAGE_BYTES ::
                    bufferOut[k] == if 8 * i <= k < 8 * i + j then ToBytes(w, 8)[k - 8 * i] else old(bufferOut[k])
      {
        bufferOut[8 * i + j] := ToBytes(w, 8)[j];
      }
    }

    /** The loop of MainTask that resets the outputs. */
    method ClearOutputs()
      requires Valid()
      modifies bufferOut
      ensures bufferOut[..] == ZeroImage()
    {
      for i := 0 to WORDS
        invariant forall k | 0 <= k < 8 * i :: bufferOut[k] == 0
      {
        StoreOutputWord(i, 0);
        forall k | 8 * i <= k < 8 * i + 8 ensures bufferOut[k] == 0 {
          ZeroBytes(8, k - 8 * i);
        }
      }
    }

    /** The two status reads of MainTask. */
    method ReadStatus() returns (watchDog: bool, state: byte)
      requires bus.Idle() && Ready(bus.chip)
      modifies bus
      ensures bus.Idle() && Ready(bus.chip) && |bus.chip.wr.fifo| <= |old(bus.chip.wr.fifo)|
      ensures bus.chip == StatusChip(old(bus.chip)) && bus.chip.rd == old(bus.chip.rd)
      ensures watchDog == !Bit0(Peek(old(bus.chip.esc), WDOG_STATUS))
      ensures state == Peek(old(bus.chip.esc), AL_STATUS_REG_0) % 16
      ensures bus.chip.sys == old(bus.chip.sys) && bus.chip.wakes == old(bus.chip.wakes)
      ensures OnlyInput(old(bus.chip.esc), bus.chip.esc)
      ensures Slice(bus.chip.esc, OUTPUT_IMAGE, IMAGE_BYTES) == Slice(old(bus.chip.esc), OUTPUT_IMAGE, IMAGE_BYTES)
      ensures Outbound(bus.ops) == Outbound(old(bus.ops))
    {
      hide Tick, WrProgress, Outbound, ToBytes, OnlyInput, ReadChip;
      ghost var c0 := bus.chip;
      WindowClears(c0, WDOG_STATUS, 1);
      var temp := ReadRegWait(WDOG_STATUS, 1);
      FirstByte(temp, c0.esc, WDOG_STATUS);
      watchDog := !Bit0(ToBytes(temp, 4)[0]);
      ghost var c1 := bus.chip;
      PassedReady(c0, c1);
      WindowClears(c1, AL_STATUS_REG_0, 1);
      temp := ReadRegWait(AL_STATUS_REG_0, 1);
      FirstByte(temp, c1.esc, AL_STATUS_REG_0);
      state := ToBytes(temp, 4)[0] % 16;
      ghost var c2 := bus.chip;
      PassedReady(c1, c2);
      PassedTransitive(c0, c1, c2);
      UnmovedByte(c0, c1, AL_STATUS_REG_0);
      WindowProgress(c0, c2);
      WindowClears(c0, OUTPUT_IMAGE, IMAGE_BYTES);
      ProgressOutsideWindow(c0, c2, OUTPUT_IMAGE, IMAGE_BYTES);
    }

    /** The branch of MainTask that resets the outputs or takes them from the chip. */
    method UpdateOutputs(reset: bool)
      requires Valid() && bus.Idle() && Ready(bus.chip) && (!reset ==> bus.chip.rd.fifo == [])
      requires OnPort() && port.publisher.Quiet?
      modifies `atomicCounter, `port, `portSteps, bus, bufferOut, toApplication
      ensures bus.chip.rd.fifo == old(bus.chip.rd.fifo)
      ensures bus.chip == if reset then old(bus.chip) else TakeChip(old(bus.chip))
      ensures bus.Idle() && Ready(bus.chip) && |bus.chip.wr.fifo| <= |old(bus.chip.wr.fifo)|
      ensures OnPort() && port.publisher.Quiet?
      ensures OnlyInput(old(bus.chip.esc), bus.chip.esc)
      ensures bus.chip.sys == old(bus.chip.sys) && bus.chip.wakes == old(bus.chip.wakes)
      ensures reset ==>
                && bufferOut[..] == ZeroImage() && toApplication[..] == old(toApplication[..])
                && port == old(port) && portSteps == old(portSteps)
      ensures !reset ==>
                var m := OutputMessage(old(bus.chip.esc));
                && bufferOut[..] == toApplication[..] == MessageBytes(m)
                && portSteps == old(portSteps) + SequenceCounter.PublishSteps(m)
                && port == SequenceCounter.PublishEffect(old(port), m)
      ensures Outbound(bus.ops) == Outbound(old(bus.ops))
    {
      hide Outbound, Slice, BufferWords, OnlyInput, WrProgress, Bus.Valid, Bus.Idle, Ready, TakeChip, MessageBytes;
      hide Driver.OnPort, OutputMessage, SequenceCounter.PublishEffect;
      ghost var c := bus.chip;
      if reset {
        ClearOutputs();
        NothingMoved(c);
      } else {
        ReadyClears(c);
        SpiReadProcRamFifo();
        ReadyProgress(c, bus.chip);
      }
    }

    /** MainTask: read the watchdog and the state machine, take or clear the outputs, send the inputs.
        An operational call does not come back for sure when the read FIFO holds old bytes. */
    method MainTask() returns (status: byte)
      requires Valid() && bus.Idle() && Ready(bus.chip) && OnRing() && OnPort() && Between()
      requires Operational(bus.chip.esc) ==> bus.chip.rd.fifo == []
      modifies `atomicCounter, `ring, `ringSteps, `port, `portSteps, bus, bufferIn, bufferOut, toApplication
      ensures bus.Idle() && Ready(bus.chip) && OnRing() && OnPort() && Between()
      ensures bus.chip.rd.fifo == old(bus.chip.rd.fifo)
      ensures forall a {:trigger Peek(bus.chip.esc, a)} :: !(0x1200 <= a < 0x1220) ==>
                Peek(bus.chip.esc, a) == Peek(old(bus.chip.esc), a)
      ensures bus.chip.sys == old(bus.chip.sys) && bus.chip.wakes == old(bus.chip.wakes)
      // The watchdog has expired or the state is not OP: outputs off, and nothing for the application.
      ensures var wdog, al := Peek(old(bus.chip.esc), 0x0440), Peek(old(bus.chip.esc), 0x0130);
              wdog % 2 == 0 || al % 16 != 8 ==>
                && (forall k | 0 <= k < 32 :: bufferOut[k] == 0) && toApplication[..] == old(toApplication[..])
                && port == old(port) && portSteps == old(portSteps)
      // Otherwise: the outputs of the master, and one publication of them.
      ensures var wdog, al := Peek(old(bus.chip.esc), 0x0440), Peek(old(bus.chip.esc), 0x0130);
              wdog % 2 == 1 && al % 16 == 8 ==>
                var m := OutputMessage(old(bus.chip.esc));
                && bufferOut[..] == toApplication[..] == MessageBytes(m) == Slice(old(bus.chip.esc), 0x1000, 32)
                && portSteps == old(portSteps) + SequenceCounter.PublishSteps(m)
                && port == SequenceCounter.PublishEffect(old(port), m)
      // The result: the state, and 0x80 for an expired watchdog.
      ensures var wdog, al := Peek(old(bus.chip.esc), 0x0440), Peek(old(bus.chip.esc), 0x0130);
              status % 0x80 == al % 16 && (status >= 0x80 <==> wdog % 2 == 0)
      // In every case: one copy of the selected slot, and one frame with it, the last one of the call.
      ensures ringSteps == old(ringSteps) + OutputRing.COPY && ring == OutputRing.CopyEffect(old(ring))
      ensures var message := Latest(old(ring.published));
              && bufferIn[..] == message && bus.chip == MainChip(old(bus.chip), MessageBytes(message))
              && Outbound(bus.ops) == Outbound(old(bus.ops)) + [Write(0x0020, MessageBytes(message))]
              && bus.ops != [] && bus.ops[|bus.ops| - 1] == Write(0x0020, MessageBytes(message))
              && (old(bus.chip.wr.fifo) == [] ==> Landing(bus.chip, 0x1200, MessageBytes(message)))
    {
      hide Outbound, Slice, MessageBytes, Landing, Peek, OnlyInput, Bus.Valid, Bus.Idle, Ready, OutputMessage;
      hide Driver.OnRing, Driver.OnPort, SendChip, StatusChip, TakeChip, SequenceCounter.PublishEffect;
      ghost var e0 := bus.chip.esc;
      OutputBytes(e0);
      var watchDog, state := ReadStatus();
      ghost var e1 := bus.chip.esc;
      SameOutput(e0, e1);
      var operational := state == ESM_OP;
      UpdateOutputs(watchDog || !operational);
      ghost var e2 := bus.chip.esc;
      OnlyInputTransitive(e0, e1, e2);
      SpiWriteProcRamFifo();
      OnlyInputTransitive(e0, e2, bus.chip.esc);
      OnlyInputMeans(e0, bus.chip.esc);
      status := if watchDog then state + 0x80 else state;
    }
  }

  lemma ZeroMessageBytes()
    ensures MessageBytes(ZERO_MESSAGE) == ZeroImage()
  {
    forall k | 0 <= k < IMAGE_BYTES ensures MessageBytes(ZERO_MESSAGE)[k] == 0 {
      MessageByteAt(ZERO_MESSAGE, k);
      ZeroBytes(8, k % 8);
    }
  }

  /** The words of the output image are its bytes. */
  lemma OutputBytes(esc: Esc)
    ensures MessageBytes(OutputMessage(esc)) == OutputImage(esc) == Slice(esc, 0x1000, 32)
  {
    hide BufferWords, MessageBytes, Slice;
    BufferBytes(OutputImage(esc));
  }

  lemma SameOutput(esc: Esc, esc': Esc)
    requires Slice(esc', OUTPUT_IMAGE, IMAGE_BYTES) == Slice(esc, OUTPUT_IMAGE, IMAGE_BYTES)
    ensures OutputMessage(esc') == OutputMessage(esc)
  {
  }

  /** Bytes in which word k of a buffer is replaced are the bytes of the buffer with that word. */
  lemma WordReplaced(shared: Message, m: Message, k: nat, before: seq<byte>, after: seq<byte>)
    requires k < WORDS && before == MessageBytes(shared) && |after| == IMAGE_BYTES
    requires forall i | 0 <= i < IMAGE_BYTES ::
               after[i] == if 8 * k <= i < 8 * k + 8 then MessageBytes(m)[i] else before[i]
    ensures after == MessageBytes(shared[k := m[k]])
  {
    hide MessageBytes, ToBytes;
    var replaced := shared[k := m[k]];
    forall i | 0 <= i < IMAGE_BYTES ensures after[i] == MessageBytes(replaced)[i] {
      MessageByteAt(replaced, i);
      MessageByteAt(shared, i);
      MessageByteAt(m, i);
    }
  }

  lemma StoreSlice(esc: Esc, a: int, bs: seq<byte>)
    ensures Slice(Store(esc, a, bs), a, |bs|) == bs
  {
  }

  lemma StoredLowBytes(c: Chip, c1: Chip, a: Word16, written: nat, len: nat)
    requires Slice(c.esc, a, 4) == ToBytes(written, 4) && Clear(c, a, 4) && Passed(c, c1) && len <= 4
    ensures Clear(c1, a, len) && Slice(c1.esc, a, len) == ToBytes(written, len)
  {
    hide WrProgress, ToBytes;
    ProgressOutsideWindow(c, c1, a, len);
    ToBytesPrefix(written, len, 4);
    assert Slice(c.esc, a, len) == Slice(c.esc, a, 4)[..len];
  }

  lemma SameLowBytes(read: Word32, written: nat, len: nat)
    requires len <= 4 && LowBytes(read, ToBytes(written, len))
    ensures read % Pow256(len) == written % Pow256(len)
  {
    hide ToBytes, FromBytes, Pow256;
    ToBytesPrefix(read, len, 4);
    FromToBytes(read, len);
    FromToBytes(written, len);
  }

  lemma OnlyInputMeans(esc: Esc, esc': Esc)
    requires OnlyInput(esc, esc')
    ensures forall a {:trigger Peek(esc', a)} :: !(0x1200 <= a < 0x1220) ==> Peek(esc', a) == Peek(esc, a)
  {
  }

  lemma NothingMoved(c: Chip)
    ensures OnlyInput(c.esc, c.esc)
  {
  }

  lemma ReadyClears(c: Chip)
    requires Ready(c)
    ensures Clear(c, OUTPUT_IMAGE, IMAGE_BYTES)
  {
    WindowClears(c, OUTPUT_IMAGE, IMAGE_BYTES);
  }

  lemma ReadyProgress(c: Chip, c': Chip)
    requires Ready(c) && WrProgress(c, c')
    ensures OnlyInput(c.esc, c'.esc) && |c'.wr.fifo| <= |c.wr.fifo|
  {
    hide OnlyInput, RamProgress;
    WindowProgress(c, c');
  }

  /** The 32-byte read frame empties the FIFO of a complete image. */
  lemma ImageTaken(c0: Chip, c: Chip, image: seq<byte>)
    requires Fetching(c, image) && c.rd.left == 0 && WrProgress(c0, c)
    ensures var (d, bs) := ReadBytes(Tick(c), ECAT_PRAM_RD_DATA, IMAGE_BYTES);
            && bs == image && Quiet(d) && d.rd.fifo == [] && WrProgress(c0, d)
            && d.sys == c.sys && d.wakes == c.wakes
  {
    hide Tick, WrProgress, ReadBytes;
    var c1 := Tick(c);
    FetchingTick(c, image);
    FetchedExactly(c1, image);
    WrProgressTransitive(c0, c, c1);
    FifoRead(c1, IMAGE_BYTES);
    var d := ReadBytes(c1, ECAT_PRAM_RD_DATA, IMAGE_BYTES).0;
    WrProgressReflexive(c1, d);
    WrProgressTransitive(c0, c1, d);
    assert image[..IMAGE_BYTES] == image;
  }

  lemma FirstByte(temp: Word32, esc: Esc, a: int)
    requires LowBytes(temp, Slice(esc, a, 1))
    ensures ToBytes(temp, 4)[0] == Peek(esc, a)
  {
    assert ToBytes(temp, 4)[..1][0] == Slice(esc, a, 1)[0];
  }

  lemma UnmovedByte(c: Chip, c': Chip, a: nat)
    requires Passed(c, c') && Window(c) && a < INPUT_IMAGE
    ensures Peek(c'.esc, a) == Peek(c.esc, a)
  {
    WindowClears(c, a, 1);
    ProgressOutsideWindow(c, c', a, 1);
    assert Slice(c'.esc, a, 1)[0] == Slice(c.esc, a, 1)[0];
  }
}
