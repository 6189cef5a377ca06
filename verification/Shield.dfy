// shield_9252: initialisation of the chip and the interrupt.
module Shield {
  import opened Words
  import opened Lan9252
  import opened Spi
  import opened ChipFacts
  import opened RpiBase

  const READY: int := 0x0800_0000
  const BYTE_TEST_VALUE: Word32 := 0x8765_4321
  const DIGITAL_RST: nat := 0x1

  /** The READY flag of HW_CFG. */
  predicate IsReady(hwCfg: Word32) { (hwCfg / READY) % 2 == 1 }

  /** A chip that needs no reset. */
  predicate Healthy(c: Chip)
  {
    && IsReady(RegValue(c, HW_CFG)) && RegValue(c, BYTE_TEST) == BYTE_TEST_VALUE
  }

  function RegValue(c: Chip, a: int): Word32
  {
    SmallBytes(RegBytes(c, a));
    FromBytes(RegBytes(c, a))
  }

  /** The registers do_initirq leaves behind. */
  predicate InterruptsConfigured(c: Chip)
  {
    && RegBytes(c, IRQ_CFG) == ToBytes(0x0000_0111, 4) && RegBytes(c, INT_EN) == ToBytes(0x0000_0001, 4)
  }

  lemma ConfigurationWords()
    ensures ToBytes(0x0000_0100, 4) == [0x00, 0x01, 0x00, 0x00]
    ensures ToBytes(0x0000_0111, 4) == [0x11, 0x01, 0x00, 0x00] && ToBytes(0x0000_0001, 4) == [0x01, 0x00, 0x00, 0x00]
  {
    hide ToBytes;
    FourBytes(0x00, 0x01, 0x00, 0x00);
    FourBytes(0x11, 0x01, 0x00, 0x00);
    FourBytes(0x01, 0x00, 0x00, 0x00);
  }

  /** AL_EVENT_MASK_REG_0, IRQ_CFG and INT_EN, byte by byte. */
  lemma ConfiguredBytes(c: Chip)
    requires EventsEnabled(c.esc) && InterruptsConfigured(c)
    ensures Slice(c.esc, 0x0204, 4) == [0x00, 0x01, 0x00, 0x00]
    ensures RegBytes(c, 0x0054) == [0x11, 0x01, 0x00, 0x00] && RegBytes(c, 0x005C) == [0x01, 0x00, 0x00, 0x00]
  {
    hide ToBytes, Slice, RegBytes;
    ConfigurationWords();
  }

  /** The READY flag is bit 3 of the most significant byte. */
  lemma ReadyBit(c: Chip)
    ensures IsReady(RegValue(c, HW_CFG)) <==> (RegBytes(c, 0x0074)[3] / 8) % 2 == 1
  {
    hide RegBytes;
    var bs := RegBytes(c, HW_CFG);
    FourByteValue(bs);
    var b0: int, b1: int, b2: int, b3: int := bs[0], bs[1], bs[2], bs[3];
    TopByte(b0 + 0x100 * (b1 + 0x100 * b2), b3);
  }

  lemma FourByteValue(bs: seq<byte>)
    requires |bs| == 4
    ensures var b0: int, b1: int, b2: int, b3: int := bs[0], bs[1], bs[2], bs[3];
            FromBytes(bs) == b0 + 0x100 * (b1 + 0x100 * b2) + 0x100_0000 * b3
  {
    assert bs[1..][0] == bs[1] && bs[1..][1..][0] == bs[2] && bs[1..][1..][1..][0] == bs[3];
    assert bs[1..][1..][1..][1..] == [];
    assert FromBytes(bs[1..][1..][1..]) == bs[3];
    assert FromBytes(bs[1..][1..]) == bs[2] + 256 * FromBytes(bs[1..][1..][1..]);
    assert FromBytes(bs[1..]) == bs[1] + 256 * FromBytes(bs[1..][1..]);
  }

  lemma TopByte(low: nat, b: nat)
    requires low < 0x100_0000
    ensures (low + 0x100_0000 * b) / READY == b / 8
  {
    var q, r := b / 8, b % 8;
    DivModUnique(low + 0x100_0000 * b, READY, q, low + 0x100_0000 * r);
  }

  lemma TestPattern(c: Chip)
    ensures RegValue(c, BYTE_TEST) == BYTE_TEST_VALUE <==> RegBytes(c, 0x0064) == [0x21, 0x43, 0x65, 0x87]
  {
    hide RegBytes, FromBytes, ToBytes;
    WakeValue();
    ToFromBytes(RegBytes(c, BYTE_TEST));
    ToFromBytes(WAKE_BYTES);
  }

  lemma HealthyExactly(c: Chip)
    ensures Healthy(c) <==>
              (RegBytes(c, 0x0074)[3] / 8) % 2 == 1 && RegBytes(c, 0x0064) == [0x21, 0x43, 0x65, 0x87]
  {
    hide RegBytes, RegValue, IsReady;
    ReadyBit(c);
    TestPattern(c);
  }

  lemma SameValue(v: Word32, bs: seq<byte>)
    requires |bs| == 4 && ToBytes(v, 4)[..4] == bs
    ensures v == FromBytes(bs)
  {
    hide ToBytes, FromBytes, Pow256;
    assert ToBytes(v, 4)[..4] == ToBytes(v, 4);
    FromToBytes(v, 4);
    Pow256Small();
  }

  lemma WakeValue()
    ensures FromBytes(WAKE_BYTES) == BYTE_TEST_VALUE
    ensures IsReady(FromBytes(READY_BYTES)) && FromBytes([0, 0, 0, 0]) != BYTE_TEST_VALUE
  {
    hide ToBytes, FromBytes, Pow256;
    FourBytes(0x21, 0x43, 0x65, 0x87);
    FourBytes(0x00, 0x00, 0x00, 0x08);
    FourBytes(0x00, 0x00, 0x00, 0x00);
    FromToBytes(BYTE_TEST_VALUE, 4);
    FromToBytes(READY, 4);
    FromToBytes(0, 4);
    Pow256Small();
  }

  /** The esc bytes of AL_EVENT_MASK_REG_0 that enable the SM 0 event. */
  predicate EventsEnabled(esc: Esc)
  {
    Slice(esc, AL_EVENT_MASK_REG_0, 4) == ToBytes(0x0000_0100, 4)
  }

  lemma TickKeepsSys(c: Chip)
    ensures Tick(c).sys == c.sys && Tick(c).wakes == c.wakes
  {
  }

  /** A chip that was reset is ready for the driver, and answers BYTE_TEST exactly if it came up. */
  lemma ResetResult(c: Chip)
    ensures Ready(ResetChip(c)) && ResetChip(c).wakes == c.wakes && ResetChip(c).rd == IDLE_ENGINE
    ensures RegValue(ResetChip(c), BYTE_TEST) == BYTE_TEST_VALUE <==> c.wakes
  {
    WakeValue();
  }

  lemma PlainRegister(c: Chip, a: Word16, bs: seq<byte>)
    requires |bs| == 4 && (a == IRQ_CFG || a == INT_EN)
    ensures WriteDword(c, a, bs) == c.(sys := c.sys[a := bs]) && RegBytes(WriteDword(c, a, bs), a) == bs
  {
  }

  class Initialiser {
    const driver: Driver
    var devHandle: int  // m_devhndl

    constructor (driver: Driver)
      ensures this.driver == driver && devHandle == -1
    {
      this.driver, devHandle := driver, -1;
    }

    /** Read_Reg of a whole register. */
    method ReadWhole(address: Word16) returns (v: Word32)
      requires driver.bus.Idle() && ECAT_PRAM_WR_DATA <= address && address % 4 == 0
      modifies driver.bus
      ensures driver.bus.Idle() && driver.bus.chip == Tick(old(driver.bus.chip))
      ensures v == RegValue(driver.bus.chip, address)
      ensures driver.bus.ops == old(driver.bus.ops) + [Read(address, 4)]
      ensures Outbound(driver.bus.ops) == Outbound(old(driver.bus.ops))
    {
      OutboundAppend(driver.bus.ops, Read(address, 4));
      RegisterRead(Tick(driver.bus.chip), address, 4);
      v := driver.ReadReg(address, 4);
      assert RegBytes(driver.bus.chip, address)[..4] == RegBytes(driver.bus.chip, address);
      SameValue(v, RegBytes(driver.bus.chip, address));
    }

    /** is_resetneeded: zero exactly for a chip that is ready and answers the test pattern. */
    method IsResetNeeded() returns (err: int)
      requires driver.bus.Idle()
      modifies driver.bus
      ensures driver.bus.Idle()
      ensures err == 0 <==> Healthy(old(driver.bus.chip))
      // Bit 27 of HW_CFG, and the test pattern in BYTE_TEST.
      ensures err == -11 <==> (RegBytes(old(driver.bus.chip), 0x0074)[3] / 8) % 2 == 0
      ensures err == 0 <==>
                && (RegBytes(old(driver.bus.chip), 0x0074)[3] / 8) % 2 == 1
                && RegBytes(old(driver.bus.chip), 0x0064) == [0x21, 0x43, 0x65, 0x87]
      ensures err == 0 || err == -11 || err == -15
      ensures driver.bus.ops ==
              old(driver.bus.ops) + if err == -11 then [Read(0x0074, 4)] else [Read(0x0074, 4), Read(0x0064, 4)]
      ensures driver.bus.chip.wakes == old(driver.bus.chip.wakes)
      ensures Quiet(old(driver.bus.chip)) ==> Passed(old(driver.bus.chip), driver.bus.chip)
      ensures Outbound(driver.bus.ops) == Outbound(old(driver.bus.ops))
    {
      hide Tick, Passed, Quiet, Outbound, RegBytes, Bus.Valid, Bus.Idle;
      ghost var c0 := driver.bus.chip;
      TickKeepsSys(c0);
      if Quiet(c0) { QuietTick(c0); }
      err := 0;
      var temp := ReadWhole(HW_CFG);
      ghost var c1 := driver.bus.chip;
      SameRegValue(c0, c1);
      ReadyBit(c0);
      TestPattern(c0);
      if !IsReady(temp) {
        return -11;
      }
      TickKeepsSys(c1);
      if Quiet(c0) {
        PassedIsQuiet(c0, c1);
        QuietTick(c1);
        PassedTransitive(c0, c1, Tick(c1));
      }
      temp := ReadWhole(BYTE_TEST);
      SameRegValue(c0, driver.bus.chip);
      if temp != BYTE_TEST_VALUE {
        err := -15;
      }
    }

    /** do_resetshield: reset twice, zero exactly if the chip then answers the test pattern. */
    method DoResetShield() returns (err: int)
      requires driver.bus.Idle()
      modifies driver.bus
      ensures driver.bus.Idle() && Ready(driver.bus.chip) && (err == 0 || err == -9)
      ensures driver.bus.chip.rd == IDLE_ENGINE
      ensures err == 0 <==> old(driver.bus.chip.wakes)
      ensures driver.bus.ops ==
              old(driver.bus.ops) + [Write(0x01F8, [1, 0, 0, 0]), Write(0x01F8, [1, 0, 0, 0]), Read(0x0064, 4)]
      ensures Outbound(driver.bus.ops) == Outbound(old(driver.bus.ops))
    {
      hide Tick, Passed, RegValue, Outbound, Bus.Valid, Bus.Idle, RegBytes, Ready;
      ghost var c0 := driver.bus.chip;
      ResetCommand();
      TickKeepsSys(c0);
      OutboundAppend(driver.bus.ops, Write(RESET_CTL, ToBytes(DIGITAL_RST, 4)));
      driver.WriteReg(RESET_CTL, DIGITAL_RST);
      ghost var c1 := driver.bus.chip;
      TickKeepsSys(c1);
      OutboundAppend(driver.bus.ops, Write(RESET_CTL, ToBytes(DIGITAL_RST, 4)));
      driver.WriteReg(RESET_CTL, DIGITAL_RST);
      ghost var c2 := driver.bus.chip;
      ResetResult(Tick(c1));
      QuietTick(c2);
      PassedReady(c2, Tick(c2));
      TickKeepsSys(c2);
      SameRegValue(c2, Tick(c2));
      var temp := ReadWhole(BYTE_TEST);
      err := if temp == BYTE_TEST_VALUE then 0 else -9;
    }

    /** Write_Reg of a configuration register. */
    method WriteConfig(address: Word16, value: nat)
      requires driver.bus.Idle() && Ready(driver.bus.chip) && (address == IRQ_CFG || address == INT_EN)
      modifies driver.bus
      ensures driver.bus.Idle() && Ready(driver.bus.chip) && driver.bus.chip.rd == old(driver.bus.chip.rd)
      ensures driver.bus.chip.sys == old(driver.bus.chip.sys)[address as int := ToBytes(value, 4)]
      ensures EventsEnabled(old(driver.bus.chip.esc)) ==> EventsEnabled(driver.bus.chip.esc)
      ensures Outbound(driver.bus.ops) == Outbound(old(driver.bus.ops))
    {
      hide Tick, WrProgress, ToBytes, Slice, RegBytes, Outbound;
      OutboundAppend(driver.bus.ops, Write(address, ToBytes(value, 4)));
      ghost var c := driver.bus.chip;
      QuietTick(c);
      PassedReady(c, Tick(c));
      TickKeepsSys(c);
      UnmovedSlice(c, Tick(c), AL_EVENT_MASK_REG_0, 4);
      PlainRegister(Tick(c), address, ToBytes(value, 4));
      driver.WriteReg(address, value);
    }

    /** do_initirq: enable the event and the interrupt pin, then open the driver. */
    method DoInitIrq(handle: int) returns (err: int)
      requires driver.bus.Idle() && Ready(driver.bus.chip)
      modifies this, driver.bus
      ensures driver.bus.Idle() && Ready(driver.bus.chip) && devHandle == handle
      ensures driver.bus.chip.rd == old(driver.bus.chip.rd)
      ensures EventsEnabled(driver.bus.chip.esc) && InterruptsConfigured(driver.bus.chip)
      ensures RegBytes(driver.bus.chip, 0x0054) == [0x11, 0x01, 0x00, 0x00]
      ensures RegBytes(driver.bus.chip, 0x005C) == [0x01, 0x00, 0x00, 0x00]
      ensures Slice(driver.bus.chip.esc, 0x0204, 4) == [0x00, 0x01, 0x00, 0x00]
      ensures driver.bus.chip.sys ==
              old(driver.bus.chip.sys)[0x0054 := [0x11, 0x01, 0, 0]][0x005C := [0x01, 0, 0, 0]]
      ensures err == if handle == -1 then -27 else 0
      ensures Outbound(driver.bus.ops) == Outbound(old(driver.bus.ops))
    {
      hide Tick, WrProgress, Passed, Ready, ToBytes, Slice, Outbound, Bus.Valid, Bus.Idle, Store, Quiet, Clear;
      ghost var c0 := driver.bus.chip;
      ghost var data := ToBytes(0x0000_0100, 4);
      ReadyForEvents(c0, data);
      driver.WriteRegWait(AL_EVENT_MASK_REG_0, 0x0000_0100);
      StoredBytes(c0, driver.bus.chip, AL_EVENT_MASK_REG_0, data);
      PassedReady(c0.(esc := Store(c0.esc, AL_EVENT_MASK_REG_0, data)), driver.bus.chip);
      WriteConfig(IRQ_CFG, 0x0000_0111);
      WriteConfig(INT_EN, 0x0000_0001);
      ConfigurationWords();
      ConfiguredBytes(driver.bus.chip);
      devHandle := handle;
      err := if devHandle == -1 then -27 else 0;
    }

    /** init: zero exactly if SPI came up, the chip was healthy or could be reset, and the interrupt
        device opened; then the chip is ready for the cycle and its interrupt is configured. Otherwise
        the first failure decides the result. A healthy chip is not reset: it keeps what an earlier
        process left in its read FIFO. */
    method Init(spiErr: int, handle: int) returns (err: int)
      requires driver.bus.Idle() && (Healthy(driver.bus.chip) ==> Ready(driver.bus.chip))
      modifies this, driver.bus
      ensures driver.bus.Idle()
      ensures err == if spiErr != 0 then spiErr
                     else if !old(Healthy(driver.bus.chip)) && !old(driver.bus.chip.wakes) then -9
                     else if handle == -1 then -27 else 0
      ensures devHandle == if spiErr == 0 && (old(Healthy(driver.bus.chip)) || old(driver.bus.chip.wakes)) then handle
                           else old(devHandle)
      ensures err == 0 ==>
                && devHandle == handle && Ready(driver.bus.chip)
                && EventsEnabled(driver.bus.chip.esc) && InterruptsConfigured(driver.bus.chip)
                && Slice(driver.bus.chip.esc, 0x0204, 4) == [0x00, 0x01, 0x00, 0x00]
                && RegBytes(driver.bus.chip, 0x0054) == [0x11, 0x01, 0x00, 0x00]
                && RegBytes(driver.bus.chip, 0x005C) == [0x01, 0x00, 0x00, 0x00]
                && driver.bus.chip.rd == if old(Healthy(driver.bus.chip)) then old(driver.bus.chip.rd) else IDLE_ENGINE
      ensures spiErr != 0 ==> driver.bus.chip == old(driver.bus.chip)
      // A chip whose READY bit is clear, or that does not answer the test pattern, is always reset.
      ensures var ready := (RegBytes(old(driver.bus.chip), 0x0074)[3] / 8) % 2 == 1;
              var answers := RegBytes(old(driver.bus.chip), 0x0064) == [0x21, 0x43, 0x65, 0x87];
              && (spiErr == 0 && !(ready && answers) && !old(driver.bus.chip.wakes) ==> err == -9)
              && (err == 0 && !(ready && answers) ==> old(driver.bus.chip.wakes) && driver.bus.chip.rd == IDLE_ENGINE)
              && (err == 0 && ready && answers ==> driver.bus.chip.rd == old(driver.bus.chip.rd))
      ensures Outbound(driver.bus.ops) == Outbound(old(driver.bus.ops))
    {
      hide Outbound, Passed, Healthy, EventsEnabled, InterruptsConfigured, RegValue, IsReady, Bus.Valid, Bus.Idle;
      err := spiErr;
      if err != 0 {
        return;
      }
      ghost var c0 := driver.bus.chip;
      HealthyExactly(c0);
      var needed := IsResetNeeded();
      if needed != 0 {
        err := DoResetShield();
      } else {
        PassedReady(c0, driver.bus.chip);
      }
      if err != 0 {
        return;
      }
      err := DoInitIrq(handle);
    }
  }

  lemma ReadyForEvents(c: Chip, data: seq<byte>)
    requires Ready(c)
    ensures Quiet(c) && Clear(c, AL_EVENT_MASK_REG_0, 4)
    ensures Ready(c.(esc := Store(c.esc, AL_EVENT_MASK_REG_0, data)))
  {
    WindowClears(c, AL_EVENT_MASK_REG_0, 4);
  }

  lemma PassedIsQuiet(c: Chip, c': Chip)
    requires Passed(c, c')
    ensures Quiet(c')
  {
  }

  /** The reset command as bytes. */
  lemma ResetCommand()
    ensures ToBytes(DIGITAL_RST, 4) == [1, 0, 0, 0] && Bit0(ToBytes(DIGITAL_RST, 4)[0])
  {
    hide ToBytes;
    FourBytes(1, 0, 0, 0);
  }

  lemma SameRegValue(c: Chip, d: Chip)
    requires d.sys == c.sys
    ensures RegValue(d, BYTE_TEST) == RegValue(c, BYTE_TEST) && RegValue(d, HW_CFG) == RegValue(c, HW_CFG)
  {
  }

  lemma UnmovedSlice(c: Chip, d: Chip, a: nat, n: nat)
    requires Ready(c) && Passed(c, d) && a + n <= INPUT_IMAGE
    ensures Slice(d.esc, a, n) == Slice(c.esc, a, n)
  {
    WindowClears(c, a, n);
    ProgressOutsideWindow(c, d, a, n);
  }

  lemma StoredBytes(c0: Chip, c1: Chip, a: nat, bs: seq<byte>)
    requires Ready(c0) && a + |bs| <= INPUT_IMAGE && Passed(c0.(esc := Store(c0.esc, a, bs)), c1)
    ensures Slice(c1.esc, a, |bs|) == bs
  {
    hide WrProgress;
    var c := c0.(esc := Store(c0.esc, a, bs));
    UnmovedSlice(c, c1, a, |bs|);
  }
}
