// The LAN9252 slave as the SPI master sees it: the directly addressable registers of datasheet
// table 5-1, the ESC (table 12-15) registers and process RAM reached through the CSR interface,
// and the two process-RAM FIFOs.
//
// How long the chip takes is not fixed: `pace` lists, for each falling chip-select edge to come,
// how many DWORDs the FIFO engines may move at that edge (none: the chip is stalled, also for CSR
// commands). Once the list is used up the chip works at full speed. Every finite delay is such a
// list, and its length is what the polling loops of the driver terminate by.
module Lan9252 {
  import opened Words

  const RESET_CTL: Word16 := 0x01F8
  const ECAT_CSR_DATA: Word16 := 0x0300
  const ECAT_CSR_CMD: Word16 := 0x0304
  const ECAT_PRAM_RD_ADDR_LEN: Word16 := 0x0308
  const ECAT_PRAM_RD_CMD: Word16 := 0x030C
  const ECAT_PRAM_WR_ADDR_LEN: Word16 := 0x0310
  const ECAT_PRAM_WR_CMD: Word16 := 0x0314
  const ECAT_PRAM_RD_DATA: Word16 := 0x0000
  const ECAT_PRAM_WR_DATA: Word16 := 0x0020
  const IRQ_CFG: Word16 := 0x0054
  const INT_EN: Word16 := 0x005C
  const BYTE_TEST: Word16 := 0x0064
  const HW_CFG: Word16 := 0x0074

  const AL_STATUS_REG_0: Word16 := 0x0130
  const AL_EVENT_MASK_REG_0: Word16 := 0x0204
  const WDOG_STATUS: Word16 := 0x0440

  const ESC_WRITE: byte := 0x80
  const ESC_READ: byte := 0xC0
  const COMM_SPI_READ: byte := 0x03
  const COMM_SPI_WRITE: byte := 0x02
  const DUMMY_BYTE: byte := 0xFF
  const ESM_OP: byte := 0x08

  /** Bit 7: ECAT_CSR_BUSY of byte 3, and the start flag of a command. */
  predicate Bit7(b: byte) { b >= 0x80 }
  /** Bit 0: PRAM_READ_AVAIL, PRAM_WRITE_AVAIL, the watchdog bit, DIGITAL_RST. */
  predicate Bit0(b: byte) { b % 2 == 1 }
  /** The R/nW bit of a CSR command. */
  predicate Bit6(b: byte) { (b / 0x40) % 2 == 1 }

  /** The size of each process-RAM FIFO. */
  const FIFO_BYTES: nat := 64
  const FIFO_DWORDS: nat := 16

  /** The CSR interface: data register and command. */
  datatype Csr = Csr(data: Word32, addr: nat, len: nat, read: bool, busy: bool)

  /** A process-RAM FIFO and its transfer: programmed address and length, next address, DWORDs left. */
  datatype Engine = Engine(addr: nat, len: nat, ptr: nat, left: nat, fifo: seq<byte>)

  datatype Chip = Chip(
    pace: seq<nat>,
    esc: map<int, byte>,       // ESC registers and process RAM
    csr: Csr,
    rd: Engine,
    wr: Engine,
    sys: map<int, seq<byte>>,  // the other directly addressable registers, one DWORD each
    wakes: bool                // whether a digital reset brings the chip up
  )

  type Esc = map<int, byte>

  function Peek(esc: Esc, a: int): byte
  {
    if a in esc then esc[a] else 0
  }

  /** The n bytes at address a. */
  function Slice(esc: Esc, a: int, n: nat): (bs: seq<byte>)
    ensures |bs| == n
    ensures forall i | 0 <= i < n :: bs[i] == Peek(esc, a + i)
  {
    if n == 0 then [] else Slice(esc, a, n - 1) + [Peek(esc, a + n - 1)]
  }

  function Store(esc: Esc, a: int, bs: seq<byte>): (r: Esc)
    ensures forall k {:trigger Peek(r, k)} :: Peek(r, k) == if a <= k < a + |bs| then bs[k - a] else Peek(esc, k)
    decreases |bs|
  {
    if bs == [] then esc
    else
      var last := |bs| - 1;
      var before := Store(esc, a, bs[..last]);
      var after := before[a + last := bs[last]];
      assert forall k {:trigger Peek(after, k)} ::
          Peek(after, k) == if k == a + last then bs[last] else Peek(before, k);
      after
  }

  function Min(a: int, b: int): int { if a <= b then a else b }

  /** DWORDs an engine may move at the next edge. */
  function Speed(c: Chip): nat
  {
    if c.pace == [] then FIFO_DWORDS else c.pace[0]
  }

  function CsrLen(csr: Csr): nat { if csr.len <= 4 then csr.len else 4 }

  predicate CsrCompletes(c: Chip) { c.csr.busy && Speed(c) > 0 }

  function CsrAfter(c: Chip): Csr
  {
    if !CsrCompletes(c) then c.csr
    else if c.csr.read then
      FromBytesBound(Slice(c.esc, c.csr.addr, CsrLen(c.csr)));
      SmallBytes(Slice(c.esc, c.csr.addr, CsrLen(c.csr)));
      c.csr.(busy := false, data := FromBytes(Slice(c.esc, c.csr.addr, CsrLen(c.csr))))
    else c.csr.(busy := false)
  }

  function EscAfterCsr(c: Chip): Esc
  {
    if CsrCompletes(c) && !c.csr.read then
      Store(c.esc, c.csr.addr, ToBytes(c.csr.data, 4)[..CsrLen(c.csr)])
    else c.esc
  }

  lemma SmallBytes(bs: seq<byte>)
    requires |bs| <= 4
    ensures FromBytes(bs) < TWO_32
  {
    FromBytesBound(bs);
    Pow256Small();
    assert Pow256(0) == 1;
  }

  /** DWORDs the read engine moves from RAM to its FIFO when it may move n. */
  function RdMoved(rd: Engine, n: nat): nat
  {
    var room := if |rd.fifo| <= FIFO_BYTES then (FIFO_BYTES - |rd.fifo|) / 4 else 0;
    Min(n, Min(rd.left, room))
  }

  function RdAfter(rd: Engine, esc: Esc, n: nat): Engine
  {
    var m := RdMoved(rd, n);
    rd.(ptr := rd.ptr + 4 * m, left := rd.left - m, fifo := rd.fifo + Slice(esc, rd.ptr, 4 * m))
  }

  /** DWORDs the write engine moves from its FIFO to RAM when it may move n. */
  function WrMoved(wr: Engine, n: nat): (m: nat)
    ensures 4 * m <= |wr.fifo| && m <= wr.left
  {
    Min(n, Min(wr.left, |wr.fifo| / 4))
  }

  function WrAfter(wr: Engine, n: nat): Engine
  {
    var m := WrMoved(wr, n);
    wr.(ptr := wr.ptr + 4 * m, left := wr.left - m, fifo := wr.fifo[4 * m..])
  }

  function EscAfterWr(esc: Esc, wr: Engine, n: nat): Esc
  {
    Store(esc, wr.ptr, wr.fifo[..4 * WrMoved(wr, n)])
  }

  /** What the chip does on its own until the next falling chip-select edge. */
  function Tick(c: Chip): Chip
  {
    var n := Speed(c);
    var esc := EscAfterCsr(c);
    c.(pace := if c.pace == [] then [] else c.pace[1..],
       csr := CsrAfter(c),
       rd := RdAfter(c.rd, esc, n),
       wr := WrAfter(c.wr, n),
       esc := EscAfterWr(esc, c.wr, n))
  }

  /** The same, n times: n falling edges with nothing sent, or the time they would take. */
  function Ticks(c: Chip, n: nat): Chip
    decreases n
  {
    if n == 0 then c else Ticks(Tick(c), n - 1)
  }

  function Flag(b: bool, v: byte): byte { if b then v else 0 }

  function Count(dwords: nat): byte { if dwords < 256 then dwords else 255 }

  /** The DWORD at a register address, least significant byte first. */
  function RegBytes(c: Chip, a: int): (bs: seq<byte>)
    ensures |bs| == 4
  {
    if a == ECAT_CSR_DATA then ToBytes(c.csr.data, 4)
    else if a == ECAT_CSR_CMD then
      [c.csr.addr % 256, (c.csr.addr / 256) % 256, c.csr.len % 256,
       Flag(c.csr.busy, 0x80) + Flag(c.csr.read, 0x40)]
    else if a == ECAT_PRAM_RD_CMD then
      var ready := |c.rd.fifo| / 4;
      [Flag(ready > 0, 1), Count(ready), 0, Flag(c.rd.left > 0, 0x80)]
    else if a == ECAT_PRAM_WR_CMD then
      var room := if |c.wr.fifo| <= FIFO_BYTES then (FIFO_BYTES - |c.wr.fifo|) / 4 else 0;
      [Flag(room > 0, 1), Count(room), 0, Flag(c.wr.left > 0, 0x80)]
    else if a in c.sys && |c.sys[a]| == 4 then c.sys[a]
    else [0, 0, 0, 0]
  }

  /** The j-th data byte of a read frame at `addr`. */
  function ReadByte(c: Chip, addr: nat, j: nat): (Chip, byte)
  {
    if addr < ECAT_PRAM_WR_DATA then
      if c.rd.fifo == [] then (c, 0)
      else (c.(rd := c.rd.(fifo := c.rd.fifo[1..])), c.rd.fifo[0])
    else
      var a := addr + j;
      (c, RegBytes(c, a - a % 4)[a % 4])
  }

  /** Sixteen-bit halves of an ADDR_LEN register. */
  function Half(bs: seq<byte>): nat
    requires |bs| == 2
  {
    var high: int := bs[1];
    bs[0] + 256 * high
  }

  function Program(e: Engine, bs: seq<byte>): Engine
    requires |bs| == 4
  {
    e.(addr := Half(bs[..2]), len := Half(bs[2..]))
  }

  function Start(e: Engine, bs: seq<byte>): Engine
    requires |bs| == 4
  {
    if Bit7(bs[3]) then e.(ptr := e.addr, left := (e.len + 3) / 4) else e
  }

  /** BYTE_TEST and the READY flag of HW_CFG on a chip that is up. */
  const WAKE_BYTES: seq<byte> := [0x21, 0x43, 0x65, 0x87]
  const READY_BYTES: seq<byte> := [0x00, 0x00, 0x00, 0x08]

  const IDLE_ENGINE := Engine(0, 0, 0, 0, [])

  /** DIGITAL_RST: everything the driver can address returns to its idle state; a chip that does not
      come up answers zeros. */
  function ResetChip(c: Chip): Chip
  {
    c.(csr := Csr(0, 0, 0, false, false), rd := IDLE_ENGINE, wr := IDLE_ENGINE,
       sys := if c.wakes then map[BYTE_TEST as int := WAKE_BYTES, HW_CFG as int := READY_BYTES] else map[])
  }

  /** A whole DWORD arrives at a register or at the write FIFO. */
  function WriteDword(c: Chip, a: int, bs: seq<byte>): Chip
    requires |bs| == 4
  {
    if ECAT_PRAM_WR_DATA <= a < ECAT_PRAM_WR_DATA + 0x20 then c.(wr := c.wr.(fifo := c.wr.fifo + bs))
    else if a == ECAT_CSR_DATA then SmallBytes(bs); c.(csr := c.csr.(data := FromBytes(bs)))
    else if a == ECAT_CSR_CMD then
      if Bit7(bs[3]) then
        c.(csr := c.csr.(addr := Half(bs[..2]), len := bs[2], read := Bit6(bs[3]), busy := true))
      else c
    else if a == ECAT_PRAM_RD_ADDR_LEN then c.(rd := Program(c.rd, bs))
    else if a == ECAT_PRAM_RD_CMD then c.(rd := Start(c.rd, bs))
    else if a == ECAT_PRAM_WR_ADDR_LEN then c.(wr := Program(c.wr, bs))
    else if a == ECAT_PRAM_WR_CMD then c.(wr := Start(c.wr, bs))
    else if a == RESET_CTL then
      if Bit0(bs[0]) then ResetChip(c) else c
    else c.(sys := c.sys[a := bs])
  }

  /** The chip's reaction to one byte, the master having sent m since chip select fell. */
  function Exchange(c: Chip, m: seq<byte>, b: byte): (Chip, byte)
  {
    if |m| < 3 then (c, 0)
    else
      var addr := Half([m[2], m[1]]);
      var j := |m| - 3;
      if m[0] == COMM_SPI_READ then ReadByte(c, addr, j)
      else if m[0] == COMM_SPI_WRITE && j % 4 == 3 then
        (WriteDword(c, addr + j - 3, m[|m| - 3..] + [b]), 0)
      else (c, 0)
  }

  /** The data bytes of a read frame of n bytes, and the chip after them. */
  function ReadBytes(c: Chip, addr: nat, n: nat): (r: (Chip, seq<byte>))
    ensures |r.1| == n
  {
    if n == 0 then (c, [])
    else
      var (c1, bs) := ReadBytes(c, addr, n - 1);
      var (c2, b) := ReadByte(c1, addr, n - 1);
      (c2, bs + [b])
  }

  /** The chip after the data bytes of a write frame. */
  function WriteBytes(c: Chip, addr: nat, data: seq<byte>): Chip
    decreases |data|
  {
    if data == [] then c
    else
      var c1 := WriteBytes(c, addr, data[..|data| - 1]);
      if |data| % 4 == 0 then WriteDword(c1, addr + |data| - 4, data[|data| - 4..]) else c1
  }
}
