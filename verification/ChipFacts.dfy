// What the driver can rely on about the LAN9252 between two frames: register frames, FIFO frames,
// and the background transfers.
module ChipFacts {
  import opened Words
  import opened Lan9252

  /** The two process-RAM images of the slave. */
  const OUTPUT_IMAGE: nat := 0x1000
  const INPUT_IMAGE: nat := 0x1200
  const IMAGE_BYTES: nat := 32

  lemma TakeStep(bs: seq<byte>, n: nat)
    requires 0 < n <= |bs|
    ensures bs[..n] == bs[..n - 1] + [bs[n - 1]]
  {
  }

  lemma RegisterByte(c: Chip, addr: nat, j: nat)
    requires ECAT_PRAM_WR_DATA <= addr && addr % 4 == 0 && j < 4
    ensures ReadByte(c, addr, j) == (c, RegBytes(c, addr)[j])
  {
    assert (addr + j) % 4 == j;
  }

  /** A read frame at a register returns the low bytes of that register and changes nothing. */
  lemma {:induction false} RegisterRead(c: Chip, addr: nat, n: nat)
    requires ECAT_PRAM_WR_DATA <= addr && addr % 4 == 0 && n <= 4
    ensures ReadBytes(c, addr, n) == (c, RegBytes(c, addr)[..n])
  {
    if n > 0 {
      RegisterRead(c, addr, n - 1);
      RegisterByte(c, addr, n - 1);
      TakeStep(RegBytes(c, addr), n);
    }
  }

  /** A four-byte write frame writes one DWORD. */
  lemma RegisterWrite(c: Chip, addr: nat, bs: seq<byte>)
    requires |bs| == 4
    ensures WriteBytes(c, addr, bs) == WriteDword(c, addr, bs)
  {
    assert bs[..3][..2] == bs[..2] && bs[..2][..1] == bs[..1] && bs[..1][..0] == [];
    assert WriteBytes(c, addr, bs[..1]) == c;
    assert WriteBytes(c, addr, bs[..2]) == c;
    assert WriteBytes(c, addr, bs[..3]) == c;
    assert bs[0..] == bs;
  }

  /** A read frame at the FIFO port takes bytes off the read FIFO. */
  lemma {:induction false} FifoRead(c: Chip, n: nat)
    requires n <= |c.rd.fifo|
    ensures ReadBytes(c, ECAT_PRAM_RD_DATA, n) ==
            (c.(rd := c.rd.(fifo := c.rd.fifo[n..])), c.rd.fifo[..n])
  {
    if n > 0 {
      FifoRead(c, n - 1);
      assert c.rd.fifo[n - 1..][1..] == c.rd.fifo[n..];
      assert c.rd.fifo[..n] == c.rd.fifo[..n - 1] + [c.rd.fifo[n - 1]];
    }
  }

  /** The whole DWORDs of data. */
  function WholeDwords(data: seq<byte>): seq<byte>
  {
    data[..|data| - |data| % 4]
  }

  lemma ModFourStep(n: nat)
    requires n > 0
    ensures n - 1 - (n - 1) % 4 == if n % 4 == 0 then n - 4 else n - n % 4
  {
  }

  lemma WholeDwordsStep(data: seq<byte>)
    requires data != []
    ensures var front := data[..|data| - 1];
            && (|data| % 4 == 0 ==> WholeDwords(data) == WholeDwords(front) + data[|data| - 4..])
            && (|data| % 4 != 0 ==> WholeDwords(data) == WholeDwords(front))
  {
    ModFourStep(|data|);
    var front := data[..|data| - 1];
    if |data| % 4 == 0 {
      var k := |data| - 4;
      assert WholeDwords(front) == data[..k];
      assert WholeDwords(data) == data;
      assert data == data[..k] + data[k..];
    }
  }

  lemma LastByte(c: Chip, a: nat, data: seq<byte>)
    requires data != []
    ensures var c1 := WriteBytes(c, a, data[..|data| - 1]);
            WriteBytes(c, a, data) ==
            if |data| % 4 == 0 then WriteDword(c1, a + |data| - 4, data[|data| - 4..]) else c1
  {
    hide WriteDword;
  }

  lemma PortWrite(c: Chip, a: int, bs: seq<byte>)
    requires |bs| == 4 && ECAT_PRAM_WR_DATA <= a < ECAT_PRAM_WR_DATA + 0x20
    ensures WriteDword(c, a, bs) == c.(wr := c.wr.(fifo := c.wr.fifo + bs))
  {
  }

  /** The chip with these bytes appended to the write FIFO. */
  function Appended(c: Chip, bs: seq<byte>): Chip
  {
    c.(wr := c.wr.(fifo := c.wr.fifo + bs))
  }

  lemma AppendedTwice(c: Chip, a: seq<byte>, b: seq<byte>)
    ensures Appended(Appended(c, a), b) == Appended(c, a + b)
  {
    assert (c.wr.fifo + a) + b == c.wr.fifo + (a + b);
  }

  lemma NothingAppended(c: Chip)
    ensures Appended(c, WholeDwords([])) == c
  {
    assert c.wr.fifo + WholeDwords([]) == c.wr.fifo;
  }

  lemma NoBytes(c: Chip, a: nat)
    ensures WriteBytes(c, a, []) == c
  {
  }

  /** A write frame at the FIFO port appends its whole DWORDs to the write FIFO. */
  lemma {:induction false} FifoWrite(c: Chip, data: seq<byte>)
    requires |data| <= IMAGE_BYTES
    ensures WriteBytes(c, ECAT_PRAM_WR_DATA, data) ==
            c.(wr := c.wr.(fifo := c.wr.fifo + WholeDwords(data)))
    decreases |data|
  {
    hide WriteBytes, WriteDword, WholeDwords;
    if data == [] {
      NoBytes(c, ECAT_PRAM_WR_DATA);
      NothingAppended(c);
    } else {
      var front := data[..|data| - 1];
      FifoWrite(c, front);
      WholeDwordsStep(data);
      LastByte(c, ECAT_PRAM_WR_DATA, data);
      if |data| % 4 == 0 {
        var last := data[|data| - 4..];
        PortWrite(Appended(c, WholeDwords(front)), ECAT_PRAM_WR_DATA + |data| - 4, last);
        AppendedTwice(c, WholeDwords(front), last);
      }
    }
  }

  // ---- background transfers ----

  /** RAM after the write engine moved the first k bytes of its FIFO. */
  ghost predicate RamProgress(c: Chip, esc: Esc, k: nat)
    requires k <= |c.wr.fifo|
  {
    forall a {:trigger Peek(esc, a)} ::
      Peek(esc, a) == if c.wr.ptr <= a < c.wr.ptr + k then c.wr.fifo[a - c.wr.ptr] else Peek(c.esc, a)
  }

  /** c' is c after the write engine moved some DWORDs from its FIFO to RAM. */
  ghost predicate WrProgress(c: Chip, c': Chip)
  {
    var m := c.wr.left - c'.wr.left;
    && 0 <= m && 4 * m <= |c.wr.fifo|
    && c'.wr == c.wr.(ptr := c.wr.ptr + 4 * m, left := c.wr.left - m, fifo := c.wr.fifo[4 * m..])
    && RamProgress(c, c'.esc, 4 * m)
  }

  lemma WrProgressReflexive(c: Chip, c': Chip)
    requires c'.wr == c.wr && c'.esc == c.esc
    ensures WrProgress(c, c')
  {
    assert c.wr.fifo[0..] == c.wr.fifo;
  }

  lemma RamProgressTransitive(c: Chip, c1: Chip, esc: Esc, k: nat, l: nat)
    requires k + l <= |c.wr.fifo| && RamProgress(c, c1.esc, k)
    requires c1.wr.ptr == c.wr.ptr + k && c1.wr.fifo == c.wr.fifo[k..] && RamProgress(c1, esc, l)
    ensures RamProgress(c, esc, k + l)
  {
    forall a
      ensures Peek(esc, a) == if c.wr.ptr <= a < c.wr.ptr + k + l then c.wr.fifo[a - c.wr.ptr] else Peek(c.esc, a)
    {
      assert Peek(c1.esc, a) == if c.wr.ptr <= a < c.wr.ptr + k then c.wr.fifo[a - c.wr.ptr] else Peek(c.esc, a);
    }
  }

  lemma WrProgressTransitive(c: Chip, c1: Chip, c2: Chip)
    requires WrProgress(c, c1) && WrProgress(c1, c2)
    ensures WrProgress(c, c2)
  {
    var k, l := 4 * (c.wr.left - c1.wr.left), 4 * (c1.wr.left - c2.wr.left);
    assert c.wr.fifo[k..][l..] == c.wr.fifo[k + l..];
    RamProgressTransitive(c, c1, c2.esc, k, l);
  }

  /** One move of the write engine over the RAM contents esc. */
  lemma EngineProgress(c: Chip, esc: Esc, n: nat, d: Chip)
    requires d.wr == WrAfter(c.wr, n) && d.esc == EscAfterWr(esc, c.wr, n)
    ensures WrProgress(c.(esc := esc), d)
  {
    var k := 4 * WrMoved(c.wr, n);
    assert |c.wr.fifo[..k]| == k;
  }

  /** Between two frames the write engine makes progress, unless a CSR write completes. */
  lemma TickProgress(c: Chip)
    requires CsrCompletes(c) ==> c.csr.read
    ensures WrProgress(c, Tick(c))
  {
    hide RamProgress;
    EngineProgress(c, c.esc, Speed(c), Tick(c));
    assert c.(esc := c.esc) == c;
  }

  /** Every edge uses up one pace, as long as there is one. */
  lemma PaceTick(c: Chip)
    ensures |Tick(c).pace| == if |c.pace| > 0 then |c.pace| - 1 else 0
  {
  }

  /** The read engine moves nothing: no transfer is left, or its FIFO has no room. */
  predicate Still(rd: Engine)
  {
    rd.left == 0 || |rd.fifo| > FIFO_BYTES - 4
  }

  /** What else happens between two frames when the read engine is still. */
  lemma TickRest(c: Chip)
    requires Still(c.rd)
    ensures Tick(c).rd == c.rd && Tick(c).sys == c.sys && Tick(c).wakes == c.wakes
    ensures Tick(c).csr == CsrAfter(c)
  {
    assert c.rd.fifo + Slice(EscAfterCsr(c), c.rd.ptr, 0) == c.rd.fifo;
  }

  /** The write engine will not write to the n bytes at address a. */
  predicate Clear(c: Chip, a: nat, n: nat)
  {
    c.wr.left == 0 || n == 0 || a + n <= c.wr.ptr || c.wr.ptr + 4 * c.wr.left <= a
  }

  lemma ProgressOutsideWindow(c: Chip, c': Chip, a: nat, n: nat)
    requires WrProgress(c, c') && Clear(c, a, n)
    ensures Slice(c'.esc, a, n) == Slice(c.esc, a, n) && Clear(c', a, n)
  {
    forall i | 0 <= i < n ensures Slice(c'.esc, a, n)[i] == Slice(c.esc, a, n)[i] {
      assert Peek(c'.esc, a + i) == Peek(c.esc, a + i);
    }
  }

  /** The 32 bytes of an outbound message are on their way to address a: the first ones are in RAM
      and the others are in the write FIFO, in order. */
  ghost predicate Landing(c: Chip, a: nat, msg: seq<byte>)
  {
    var landed := |msg| - |c.wr.fifo|;
    && 0 <= landed && c.wr.ptr == a + landed && 4 * c.wr.left == |c.wr.fifo|
    && c.wr.fifo == msg[landed..]
    && Slice(c.esc, a, landed) == msg[..landed]
  }

  lemma SliceSplit(esc: Esc, a: int, k: nat, n: nat)
    requires k <= n
    ensures Slice(esc, a, n) == Slice(esc, a, k) + Slice(esc, a + k, n - k)
  {
  }

  lemma ProgressSlices(c: Chip, c': Chip, a: nat, n: nat)
    requires WrProgress(c, c') && a + n == c.wr.ptr
    ensures Slice(c'.esc, a, n) == Slice(c.esc, a, n)
    ensures var k := 4 * (c.wr.left - c'.wr.left);
            Slice(c'.esc, c.wr.ptr, k) == c.wr.fifo[..k]
  {
    forall i | 0 <= i < n ensures Slice(c'.esc, a, n)[i] == Slice(c.esc, a, n)[i] {
      assert Peek(c'.esc, a + i) == Peek(c.esc, a + i);
    }
  }

  lemma LandingProgress(c: Chip, c': Chip, a: nat, msg: seq<byte>)
    requires Landing(c, a, msg) && WrProgress(c, c')
    ensures Landing(c', a, msg)
  {
    hide Slice, RamProgress;
    var landed, k := |msg| - |c.wr.fifo|, 4 * (c.wr.left - c'.wr.left);
    ProgressSlices(c, c', a, landed);
    SliceSplit(c'.esc, a, landed, landed + k);
    SeqShift(msg, landed, k);
  }

  lemma SeqShift(msg: seq<byte>, n: nat, k: nat)
    requires n + k <= |msg|
    ensures msg[n..][k..] == msg[n + k..]
    ensures msg[..n + k] == msg[..n] + msg[n..][..k]
  {
  }

  /** Once the FIFO has drained, RAM holds the message, and its words are the words that were sent. */
  lemma LandedMessage(c: Chip, a: nat, words: Message)
    requires Landing(c, a, MessageBytes(words)) && c.wr.fifo == []
    ensures Slice(c.esc, a, IMAGE_BYTES) == MessageBytes(words)
    ensures MessageWords(Slice(c.esc, a, IMAGE_BYTES)) == words
  {
    var msg := MessageBytes(words);
    assert msg[..|msg|] == msg;
    WordsOfBytes(words);
  }

  lemma LandingTick(c: Chip, a: nat, msg: seq<byte>)
    requires Landing(c, a, msg) && !c.csr.busy && |msg| <= FIFO_BYTES
    ensures Landing(Tick(c), a, msg) && !Tick(c).csr.busy
    ensures c.pace == [] || c.wr.fifo == [] ==> Tick(c).wr.fifo == []
    ensures |Tick(c).pace| == if |c.pace| > 0 then |c.pace| - 1 else 0
  {
    TickProgress(c);
    LandingProgress(c, Tick(c), a, msg);
  }

  lemma {:induction false} LandingTicks(c: Chip, a: nat, msg: seq<byte>, n: nat)
    requires Landing(c, a, msg) && !c.csr.busy && |msg| <= FIFO_BYTES
    requires n > |c.pace| || c.wr.fifo == []
    ensures Landing(Ticks(c, n), a, msg) && Ticks(c, n).wr.fifo == []
    decreases n
  {
    hide Tick, Landing;
    if n > 0 {
      LandingTick(c, a, msg);
      LandingTicks(Tick(c), a, msg, n - 1);
    }
  }

  /** A message that is landing has landed one edge after the pace list is used up, and reads back
      as the four words that were sent. */
  lemma LandingEnds(c: Chip, a: nat, words: Message, n: nat)
    requires Landing(c, a, MessageBytes(words)) && !c.csr.busy && n > |c.pace|
    ensures MessageWords(Slice(Ticks(c, n).esc, a, IMAGE_BYTES)) == words
  {
    LandingTicks(c, a, MessageBytes(words), n);
    LandedMessage(Ticks(c, n), a, words);
  }

  /** Nothing pending but, possibly, the write engine: the state between two driver operations. */
  ghost predicate Quiet(c: Chip)
  {
    !c.csr.busy && Still(c.rd)
  }

  /** c' is c after frames that addressed neither engine. */
  ghost predicate Passed(c: Chip, c': Chip)
  {
    WrProgress(c, c') && Quiet(c') && c'.rd == c.rd && c'.sys == c.sys && c'.wakes == c.wakes
  }

  lemma QuietTick(c: Chip)
    requires Quiet(c)
    ensures Passed(c, Tick(c))
  {
    hide Tick, RamProgress;
    TickProgress(c);
    TickRest(c);
  }

  lemma PassedTransitive(c: Chip, c1: Chip, c2: Chip)
    requires Passed(c, c1) && Passed(c1, c2)
    ensures Passed(c, c2)
  {
    WrProgressTransitive(c, c1, c2);
  }

  /** The 32-byte output image is on its way to the read FIFO: first its bytes in the FIFO, then the
      ones still in RAM. */
  ghost predicate Fetching(c: Chip, image: seq<byte>)
  {
    && !c.csr.busy && |image| == IMAGE_BYTES
    && |c.rd.fifo| + 4 * c.rd.left == IMAGE_BYTES
    && c.rd.fifo + Slice(c.esc, c.rd.ptr, 4 * c.rd.left) == image
    && Clear(c, c.rd.ptr, 4 * c.rd.left)
  }

  /** The bytes the read engine moves at one edge change place, not order. */
  lemma FetchedBytesMove(c: Chip, d: Chip, image: seq<byte>, k: nat)
    requires Fetching(c, image) && k <= 4 * c.rd.left
    requires Slice(d.esc, c.rd.ptr + k, 4 * c.rd.left - k) == Slice(c.esc, c.rd.ptr + k, 4 * c.rd.left - k)
    ensures c.rd.fifo + Slice(c.esc, c.rd.ptr, k) + Slice(d.esc, c.rd.ptr + k, 4 * c.rd.left - k) == image
  {
    SliceSplit(c.esc, c.rd.ptr, k, 4 * c.rd.left);
  }

  /** What the read engine does between two frames. */
  lemma TickFetch(c: Chip)
    requires !c.csr.busy
    ensures Tick(c).rd == RdAfter(c.rd, c.esc, Speed(c)) && !Tick(c).csr.busy
    ensures Tick(c).sys == c.sys && Tick(c).wakes == c.wakes
  {
  }

  lemma FetchingTick(c: Chip, image: seq<byte>)
    requires Fetching(c, image)
    ensures Fetching(Tick(c), image) && WrProgress(c, Tick(c))
    ensures Tick(c).rd.left <= c.rd.left && (c.pace == [] ==> Tick(c).rd.left == 0)
    ensures Tick(c).sys == c.sys && Tick(c).wakes == c.wakes
  {
    hide Tick, RamProgress, Slice;
    TickProgress(c);
    TickFetch(c);
    var m := RdMoved(c.rd, Speed(c));
    ProgressOutsideWindow(c, Tick(c), c.rd.ptr + 4 * m, 4 * (c.rd.left - m));
    FetchedBytesMove(c, Tick(c), image, 4 * m);
  }

  /** The exact count the driver waits for is reached only when the whole image is in the FIFO. */
  lemma FetchedExactly(c: Chip, image: seq<byte>)
    requires Fetching(c, image)
    ensures var status := RegBytes(c, ECAT_PRAM_RD_CMD);
            Bit0(status[0]) && status[1] == 8 <==> c.rd.left == 0
    ensures c.rd.left == 0 ==> c.rd.fifo == image && |image| == IMAGE_BYTES && !c.csr.busy
  {
  }

  // ---- CSR commands ----

  /** c has a CSR read of len bytes at address a in flight, or just completed, that started at c0. */
  ghost predicate CsrReading(c0: Chip, c: Chip, a: nat, len: nat)
  {
    && c.csr.addr == a && c.csr.len == len && c.csr.read && len <= 4
    && WrProgress(c0, c) && c.rd == c0.rd && Still(c.rd) && c.sys == c0.sys && c.wakes == c0.wakes
    && Clear(c, a, len) && Slice(c.esc, a, len) == Slice(c0.esc, a, len)
    && (!c.csr.busy ==> c.csr.data == FromBytes(Slice(c0.esc, a, len)))
  }

  lemma CsrReadingTick(c0: Chip, c: Chip, a: nat, len: nat)
    requires CsrReading(c0, c, a, len)
    ensures CsrReading(c0, Tick(c), a, len)
    ensures c.pace == [] ==> !Tick(c).csr.busy
  {
    hide Tick, RamProgress;
    TickProgress(c);
    TickRest(c);
    WrProgressTransitive(c0, c, Tick(c));
    ProgressOutsideWindow(c, Tick(c), a, len);
  }

  /** The four bytes of a CSR command. */
  function CsrCommand(a: Word16, len: byte, command: byte): seq<byte>
  {
    [a % 256, a / 256, len, command]
  }

  /** The chip after polling until a CSR command is executed. */
  function IdleAfter(c: Chip): Chip
    decreases |c.pace|
  {
    var d := Tick(c);
    if d.csr.busy && c.pace != [] then IdleAfter(d) else d
  }

  /** The chip after one Read_Reg_Wait. */
  function ReadChip(c: Chip, a: Word16, len: byte): Chip
  {
    Tick(IdleAfter(WriteDword(Tick(c), ECAT_CSR_CMD, CsrCommand(a, len, ESC_READ))))
  }

  lemma CsrReadStarts(c: Chip, a: Word16, len: byte)
    requires Quiet(c) && len <= 4 && Clear(c, a, len)
    ensures CsrReading(c, WriteDword(Tick(c), ECAT_CSR_CMD, CsrCommand(a, len, ESC_READ)), a, len)
  {
    hide Tick, RamProgress;
    QuietTick(c);
    ProgressOutsideWindow(c, Tick(c), a, len);
    var cmd := CsrCommand(a, len, ESC_READ);
    assert cmd[..2] == [a % 256, a / 256];
    var d := WriteDword(Tick(c), ECAT_CSR_CMD, cmd);
    assert d.wr == Tick(c).wr && d.esc == Tick(c).esc;
  }

  /** The data register holds the register bytes in its low bytes. */
  lemma CsrDataBytes(c: Chip, bs: seq<byte>)
    requires |bs| <= 4 && c.csr.data == FromBytes(bs)
    ensures RegBytes(c, ECAT_CSR_DATA)[..|bs|] == bs
  {
    ToBytesPrefix(FromBytes(bs), |bs|, 4);
    ToFromBytes(bs);
  }

  /** A completed CSR read: the data-register frame answers the bytes of ESC memory. */
  lemma CsrReadEnds(c0: Chip, c: Chip, a: nat, len: nat)
    requires CsrReading(c0, c, a, len) && !c.csr.busy
    ensures Passed(c0, Tick(c))
    ensures ReadBytes(Tick(c), ECAT_CSR_DATA, len) == (Tick(c), Slice(c0.esc, a, len))
  {
    hide Tick, RamProgress, Slice, RegBytes;
    CsrReadingTick(c0, c, a, len);
    TickRest(c);
    RegisterRead(Tick(c), ECAT_CSR_DATA, len);
    CsrDataBytes(Tick(c), Slice(c0.esc, a, len));
  }

  lemma CsrBusyFlag(c: Chip)
    ensures Bit7(RegBytes(c, ECAT_CSR_CMD)[3]) <==> c.csr.busy
  {
  }

  /** c has a CSR write of data at address a in flight, or just completed, that started at c0. */
  ghost predicate CsrWriting(c0: Chip, c: Chip, a: nat, data: seq<byte>)
    requires |data| == 4
  {
    && c.csr.addr == a && c.csr.len == 4 && !c.csr.read && ToBytes(c.csr.data, 4) == data
    && c.rd == c0.rd && Still(c.rd) && c.sys == c0.sys && c.wakes == c0.wakes
    && Clear(c, a, 4)
    && (if c.csr.busy then WrProgress(c0, c) else WrProgress(c0.(esc := Store(c0.esc, a, data)), c))
  }

  lemma CsrWriteCompletes(c: Chip, a: nat, data: seq<byte>)
    requires |data| == 4 && c.csr.addr == a && c.csr.len == 4 && !c.csr.read && ToBytes(c.csr.data, 4) == data
    requires CsrCompletes(c)
    ensures WrProgress(c.(esc := Store(c.esc, a, data)), Tick(c))
  {
    hide RamProgress, Store, ToBytes;
    assert ToBytes(c.csr.data, 4)[..4] == data;
    EngineProgress(c, Store(c.esc, a, data), Speed(c), Tick(c));
  }

  /** Stores outside the engine's window commute with its progress. */
  lemma StoreProgress(c0: Chip, c: Chip, a: nat, data: seq<byte>)
    requires WrProgress(c0, c) && Clear(c0, a, |data|)
    ensures WrProgress(c0.(esc := Store(c0.esc, a, data)), c.(esc := Store(c.esc, a, data)))
  {
    hide Store;
    var c0', c' := c0.(esc := Store(c0.esc, a, data)), c.(esc := Store(c.esc, a, data));
    var k := 4 * (c0.wr.left - c.wr.left);
    forall x
      ensures Peek(c'.esc, x) == if c0.wr.ptr <= x < c0.wr.ptr + k then c0.wr.fifo[x - c0.wr.ptr] else Peek(c0'.esc, x)
    {
      assert Peek(c'.esc, x) == if a <= x < a + |data| then data[x - a] else Peek(c.esc, x);
      assert Peek(c0'.esc, x) == if a <= x < a + |data| then data[x - a] else Peek(c0.esc, x);
    }
  }

  lemma CsrWritingTick(c0: Chip, c: Chip, a: nat, data: seq<byte>)
    requires |data| == 4 && CsrWriting(c0, c, a, data) && Clear(c0, a, 4)
    ensures CsrWriting(c0, Tick(c), a, data)
    ensures c.pace == [] ==> !Tick(c).csr.busy
  {
    hide Tick, RamProgress, Store, ToBytes;
    var d := Tick(c);
    TickRest(c);
    if CsrCompletes(c) {
      CsrWriteCompletes(c, a, data);
      StoreProgress(c0, c, a, data);
      WrProgressTransitive(c0.(esc := Store(c0.esc, a, data)), c.(esc := Store(c.esc, a, data)), d);
    } else {
      TickProgress(c);
      if c.csr.busy {
        WrProgressTransitive(c0, c, d);
      } else {
        WrProgressTransitive(c0.(esc := Store(c0.esc, a, data)), c, d);
      }
    }
  }

  /** The data register is loaded and the command is not issued yet. */
  ghost predicate CsrLoaded(c0: Chip, c: Chip, a: nat, data: seq<byte>)
  {
    Passed(c0, c) && ToBytes(c.csr.data, 4) == data && Clear(c, a, 4)
  }

  lemma CsrLoads(c: Chip, a: Word16, data: seq<byte>)
    requires Quiet(c) && |data| == 4 && Clear(c, a, 4)
    ensures CsrLoaded(c, WriteDword(Tick(c), ECAT_CSR_DATA, data), a, data)
  {
    hide Tick, RamProgress;
    QuietTick(c);
    var c1 := WriteDword(Tick(c), ECAT_CSR_DATA, data);
    ProgressOutsideWindow(c, Tick(c), a, 4);
    WrProgressReflexive(Tick(c), c1);
    WrProgressTransitive(c, Tick(c), c1);
    ToFromBytes(data);
  }

  lemma CsrWriteStarts(c0: Chip, c: Chip, a: Word16, data: seq<byte>)
    requires |data| == 4 && CsrLoaded(c0, c, a, data)
    ensures CsrWriting(c0, WriteDword(Tick(c), ECAT_CSR_CMD, CsrCommand(a, 4, ESC_WRITE)), a, data)
  {
    hide Tick, RamProgress;
    QuietTick(c);
    TickRest(c);
    ProgressOutsideWindow(c, Tick(c), a, 4);
    WrProgressTransitive(c0, c, Tick(c));
    var cmd := CsrCommand(a, 4, ESC_WRITE);
    assert cmd[..2] == [a % 256, a / 256];
    WrProgressReflexive(Tick(c), WriteDword(Tick(c), ECAT_CSR_CMD, cmd));
    WrProgressTransitive(c0, Tick(c), WriteDword(Tick(c), ECAT_CSR_CMD, cmd));
  }

  // ---- process-RAM transfers ----

  /** 0x00201000, 0x00201200 and 0x80000000 as the driver writes them. */
  lemma TransferWords()
    ensures ToBytes(0x0020_1000, 4) == [0x00, 0x10, 0x20, 0x00]
    ensures ToBytes(0x0020_1200, 4) == [0x00, 0x12, 0x20, 0x00]
    ensures ToBytes(0x8000_0000, 4) == [0x00, 0x00, 0x00, 0x80]
  {
    hide ToBytes;
    FourBytes(0x00, 0x10, 0x20, 0x00);
    FourBytes(0x00, 0x12, 0x20, 0x00);
    FourBytes(0x00, 0x00, 0x00, 0x80);
  }

  lemma FourBytes(a: byte, b: byte, c: byte, d: byte)
    ensures var v: int := d; ToBytes(a + 0x100 * (b + 0x100 * (c + 0x100 * v)), 4) == [a, b, c, d]
  {
    var v: int := d;
    assert ToBytes(v, 1) == [d];
    assert ToBytes(c + 0x100 * v, 2) == [c] + ToBytes(v, 1);
    assert ToBytes(b + 0x100 * (c + 0x100 * v), 3) == [b] + ToBytes(c + 0x100 * v, 2);
  }

  const READ_SETUP: seq<byte> := [0x00, 0x10, 0x20, 0x00]
  const WRITE_SETUP: seq<byte> := [0x00, 0x12, 0x20, 0x00]
  const START: seq<byte> := [0x00, 0x00, 0x00, 0x80]

  /** The read engine is programmed for the output image and not started yet. */
  ghost predicate FetchLoaded(c0: Chip, c: Chip)
  {
    && WrProgress(c0, c) && Quiet(c) && c.rd.fifo == [] && c.sys == c0.sys && c.wakes == c0.wakes
    && c.rd.addr == OUTPUT_IMAGE && c.rd.len == IMAGE_BYTES
    && Clear(c, OUTPUT_IMAGE, IMAGE_BYTES)
    && Slice(c.esc, OUTPUT_IMAGE, IMAGE_BYTES) == Slice(c0.esc, OUTPUT_IMAGE, IMAGE_BYTES)
  }

  lemma FetchLoads(c: Chip)
    requires Quiet(c) && c.rd.fifo == [] && Clear(c, OUTPUT_IMAGE, IMAGE_BYTES)
    ensures FetchLoaded(c, WriteDword(Tick(c), ECAT_PRAM_RD_ADDR_LEN, READ_SETUP))
  {
    hide Tick, RamProgress;
    QuietTick(c);
    var c1 := WriteDword(Tick(c), ECAT_PRAM_RD_ADDR_LEN, READ_SETUP);
    assert READ_SETUP[..2] == [0x00, 0x10] && READ_SETUP[2..] == [0x20, 0x00];
    WrProgressReflexive(Tick(c), c1);
    WrProgressTransitive(c, Tick(c), c1);
    ProgressOutsideWindow(c, c1, OUTPUT_IMAGE, IMAGE_BYTES);
  }

  /** The start command sets the output image on its way. */
  lemma FetchStarts(c0: Chip, c: Chip)
    requires FetchLoaded(c0, c)
    ensures var d := WriteDword(Tick(c), ECAT_PRAM_RD_CMD, START);
            && Fetching(d, Slice(c0.esc, OUTPUT_IMAGE, IMAGE_BYTES)) && WrProgress(c0, d)
            && d.sys == c0.sys && d.wakes == c0.wakes
  {
    hide Tick, RamProgress;
    QuietTick(c);
    WrProgressTransitive(c0, c, Tick(c));
    ProgressOutsideWindow(c, Tick(c), OUTPUT_IMAGE, IMAGE_BYTES);
    var d := WriteDword(Tick(c), ECAT_PRAM_RD_CMD, START);
    WrProgressReflexive(Tick(c), d);
    WrProgressTransitive(c0, Tick(c), d);
    assert d.rd.fifo + Slice(d.esc, OUTPUT_IMAGE, IMAGE_BYTES) == Slice(d.esc, OUTPUT_IMAGE, IMAGE_BYTES);
  }

  /** The write engine only ever writes to the input image. */
  predicate Window(c: Chip)
  {
    c.wr.left == 0 || (INPUT_IMAGE <= c.wr.ptr && c.wr.ptr + 4 * c.wr.left <= INPUT_IMAGE + IMAGE_BYTES)
  }

  /** A chip at rest, as between two cycles: nothing pending on the CSR interface, the read engine
      still, both FIFOs within their capacity and the write transfer confined to the input image. The
      read FIFO may hold bytes that a process left there when it was killed. */
  ghost predicate Ready(c: Chip)
  {
    Quiet(c) && |c.rd.fifo| <= FIFO_BYTES && |c.wr.fifo| <= FIFO_BYTES && Window(c)
  }

  lemma MasterKeepsReady(c: Chip, esc: Esc, pace: seq<nat>)
    requires Ready(c)
    ensures Ready(c.(esc := esc, pace := pace))
  {
  }

  lemma ProgressKeepsWindow(c: Chip, c': Chip)
    requires WrProgress(c, c') && Window(c)
    ensures Window(c') && |c'.wr.fifo| <= |c.wr.fifo|
  {
  }

  lemma {:induction false} ReadyTicks(c: Chip, n: nat)
    requires Ready(c)
    ensures Ready(Ticks(c, n)) && Ticks(c, n).rd == c.rd
    decreases n
  {
    hide Tick, Ready, Passed;
    if n > 0 {
      assert Quiet(c) by { ReadyIsQuiet(c); }
      QuietTick(c);
      PassedReady(c, Tick(c));
      ReadyTicks(Tick(c), n - 1);
    }
  }

  lemma ReadyIsQuiet(c: Chip)
    requires Ready(c)
    ensures Quiet(c)
  {
  }

  /** At most the 32 bytes of the input image differ. */
  ghost predicate OnlyInput(esc: Esc, esc': Esc)
  {
    forall a {:trigger Peek(esc', a)} ::
      !(INPUT_IMAGE <= a < INPUT_IMAGE + IMAGE_BYTES) ==> Peek(esc', a) == Peek(esc, a)
  }

  lemma WindowProgress(c: Chip, c': Chip)
    requires WrProgress(c, c') && Window(c)
    ensures OnlyInput(c.esc, c'.esc)
  {
  }

  lemma OnlyInputTransitive(a: Esc, b: Esc, c: Esc)
    requires OnlyInput(a, b) && OnlyInput(b, c)
    ensures OnlyInput(a, c)
  {
    forall k {:trigger Peek(c, k)} | !(INPUT_IMAGE <= k < INPUT_IMAGE + IMAGE_BYTES)
      ensures Peek(c, k) == Peek(a, k)
    {
      assert Peek(b, k) == Peek(a, k);
    }
  }

  lemma WindowClears(c: Chip, a: nat, n: nat)
    requires Window(c) && a + n <= INPUT_IMAGE
    ensures Clear(c, a, n)
  {
  }

  lemma PassedReady(c: Chip, c': Chip)
    requires Ready(c) && Passed(c, c')
    ensures Ready(c') && |c'.wr.fifo| <= |c.wr.fifo| && c'.rd == c.rd && c'.sys == c.sys
  {
    hide RamProgress;
  }

  /** The write engine is programmed for the input image and waits for data; what its FIFO held
      before leaves room for 32 bytes once it has drained as far as the length allows. */
  ghost predicate Draining(c: Chip)
  {
    && Quiet(c) && |c.wr.fifo| <= FIFO_BYTES && |c.wr.fifo| <= 4 * c.wr.left + IMAGE_BYTES
    && INPUT_IMAGE <= c.wr.ptr && c.wr.ptr + 4 * c.wr.left == INPUT_IMAGE + IMAGE_BYTES
  }

  /** The chip after the two commands of SPIWriteProcRamFifo. */
  function DrainBegun(c: Chip): Chip
  {
    WriteDword(Tick(WriteDword(Tick(c), ECAT_PRAM_WR_ADDR_LEN, WRITE_SETUP)), ECAT_PRAM_WR_CMD, START)
  }

  /** The chip after polling until there is room for 32 bytes. */
  function RoomAfter(c: Chip): Chip
    decreases |c.pace|
  {
    var d := Tick(c);
    if |d.wr.fifo| > IMAGE_BYTES && c.pace != [] then RoomAfter(d) else d
  }

  /** The chip when the bytes are pushed, and after the whole of SPIWriteProcRamFifo. */
  function PushChip(c: Chip): Chip { Tick(RoomAfter(DrainBegun(c))) }
  function SendChip(c: Chip, bytes: seq<byte>): Chip { WriteBytes(PushChip(c), ECAT_PRAM_WR_DATA, bytes) }

  /** The chip after the two status reads of MainTask. */
  function StatusChip(c: Chip): Chip { ReadChip(ReadChip(c, WDOG_STATUS, 1), AL_STATUS_REG_0, 1) }

  /** The chip after the two commands of SPIReadProcRamFifo. */
  function FetchBegun(c: Chip): Chip
  {
    WriteDword(Tick(WriteDword(Tick(c), ECAT_PRAM_RD_ADDR_LEN, READ_SETUP)), ECAT_PRAM_RD_CMD, START)
  }

  /** The chip after polling until the whole image is in the read FIFO. */
  function ImageAfter(c: Chip): Chip
    decreases |c.pace|
  {
    var d := Tick(c);
    if d.rd.left > 0 && c.pace != [] then ImageAfter(d) else d
  }

  /** The chip after the whole of SPIReadProcRamFifo. */
  function TakeChip(c: Chip): Chip
  {
    ReadBytes(Tick(ImageAfter(FetchBegun(c))), ECAT_PRAM_RD_DATA, IMAGE_BYTES).0
  }

  /** Nothing is in the write FIFO and the whole input image is still to be written. */
  predicate Unstarted(c: Chip)
  {
    c.wr.fifo == [] && c.wr.ptr == INPUT_IMAGE && 4 * c.wr.left == IMAGE_BYTES
  }

  /** The write engine is programmed for the input image and not started yet. */
  ghost predicate DrainLoaded(c0: Chip, c: Chip)
  {
    && Quiet(c) && c.wr.addr == INPUT_IMAGE && c.wr.len == IMAGE_BYTES && |c.wr.fifo| <= |c0.wr.fifo|
    && c.rd == c0.rd && c.sys == c0.sys && c.wakes == c0.wakes
    && Window(c) && OnlyInput(c0.esc, c.esc)
  }

  lemma DrainLoads(c: Chip)
    requires Quiet(c) && Window(c)
    ensures DrainLoaded(c, WriteDword(Tick(c), ECAT_PRAM_WR_ADDR_LEN, WRITE_SETUP))
  {
    hide Tick, RamProgress, OnlyInput;
    QuietTick(c);
    WindowProgress(c, Tick(c));
    assert WRITE_SETUP[..2] == [0x00, 0x12] && WRITE_SETUP[2..] == [0x20, 0x00];
  }

  lemma DrainStarts(c0: Chip, c: Chip)
    requires DrainLoaded(c0, c) && |c0.wr.fifo| <= FIFO_BYTES
    ensures var d := WriteDword(Tick(c), ECAT_PRAM_WR_CMD, START);
            && Draining(d) && d.rd == c0.rd && d.sys == c0.sys && d.wakes == c0.wakes
            && (c0.wr.fifo == [] ==> Unstarted(d)) && d.wr.ptr == INPUT_IMAGE && OnlyInput(c0.esc, d.esc)
  {
    hide Tick, RamProgress, OnlyInput;
    QuietTick(c);
    WindowProgress(c, Tick(c));
    OnlyInputTransitive(c0.esc, c.esc, Tick(c).esc);
  }

  lemma DrainingTick(c: Chip)
    requires Draining(c)
    ensures Draining(Tick(c)) && Tick(c).rd == c.rd && Tick(c).sys == c.sys && Tick(c).wakes == c.wakes
    ensures Unstarted(c) ==> Unstarted(Tick(c))
    ensures |Tick(c).wr.fifo| <= |c.wr.fifo|
    ensures c.pace == [] ==> |Tick(c).wr.fifo| <= IMAGE_BYTES
    ensures OnlyInput(c.esc, Tick(c).esc)
  {
    hide RamProgress, RegBytes, OnlyInput;
    QuietTick(c);
    WindowProgress(c, Tick(c));
  }

  /** The room count the driver waits for. */
  lemma RoomExactly(c: Chip)
    requires |c.wr.fifo| <= FIFO_BYTES
    ensures RegBytes(c, ECAT_PRAM_WR_CMD)[1] >= 8 <==> |c.wr.fifo| <= IMAGE_BYTES
    ensures |c.wr.fifo| <= IMAGE_BYTES ==> Bit0(RegBytes(c, ECAT_PRAM_WR_CMD)[0])
  {
  }

  /** 32 bytes pushed into a drained FIFO are landing. */
  lemma PushLands(c: Chip, msg: seq<byte>)
    requires Draining(c) && |msg| == IMAGE_BYTES && |c.wr.fifo| <= IMAGE_BYTES
    ensures var d := WriteBytes(c, ECAT_PRAM_WR_DATA, msg);
            && Quiet(d) && |d.wr.fifo| <= FIFO_BYTES && Window(d)
            && d.rd == c.rd && d.sys == c.sys && d.wakes == c.wakes && d.esc == c.esc
            && (Unstarted(c) ==> Landing(d, INPUT_IMAGE, msg))
  {
    FifoWrite(c, msg);
    assert WholeDwords(msg) == msg && msg[0..] == msg;
    assert [] + msg == msg;
  }
}
