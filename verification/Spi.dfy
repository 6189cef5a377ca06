// SPI frames: what the driver sends between two chip-select edges, how the slave decodes it, and
// the bus object that carries the bytes to the chip.
module Spi {
  import opened Words
  import opened Lan9252

  datatype Option<+T> = None | Some(value: T)

  /** One register or FIFO operation. */
  datatype Op =
    | Read(addr: Word16, len: nat)
    | Write(addr: Word16, data: seq<byte>)

  function High(a: Word16): byte { a / 256 }
  function Low(a: Word16): byte { a % 256 }

  function Dummies(n: nat): (bs: seq<byte>)
    ensures |bs| == n
  {
    if n == 0 then [] else Dummies(n - 1) + [DUMMY_BYTE]
  }

  /** The bytes the master sends for an operation, address most significant byte first. */
  function Encode(op: Op): (f: seq<byte>)
    ensures |f| >= 3
  {
    match op
    case Read(a, n) => [COMM_SPI_READ, High(a), Low(a)] + Dummies(n)
    case Write(a, data) => [COMM_SPI_WRITE, High(a), Low(a)] + data
  }

  /** What the slave understands from the bytes of one frame. */
  function Decode(f: seq<byte>): Option<Op>
  {
    if |f| < 3 then None
    else
      var addr := Half([f[2], f[1]]);
      if addr >= TWO_16 then None
      else if f[0] == COMM_SPI_READ then Some(Read(addr, |f| - 3))
      else if f[0] == COMM_SPI_WRITE then Some(Write(addr, f[3..]))
      else None
  }

  lemma {:induction false} DecodeEncode(op: Op)
    ensures Decode(Encode(op)) == Some(op)
  {
    var f := Encode(op);
    assert Half([f[2], f[1]]) == op.addr;
    if op.Write? {
      assert f[3..] == op.data;
    }
  }

  /** The bytes of a frame: 3 or 2, the address most significant byte first, then dummies or data. */
  lemma {:induction false} FrameLayout(op: Op)
    ensures var f := Encode(op);
            && f[0] == (if op.Read? then 3 else 2)
            && (var high: int := f[1]; 256 * high + f[2] == op.addr)
            && (op.Write? ==> f[3..] == op.data)
            && (op.Read? ==> |f| == 3 + op.len && forall k | 3 <= k < |f| :: f[k] == 0xFF)
  {
    if op.Read? {
      DummyBytes(op.len);
    }
  }

  lemma {:induction false} DummyBytes(n: nat)
    ensures forall k | 0 <= k < n :: Dummies(n)[k] == 0xFF
  {
    if n > 0 {
      DummyBytes(n - 1);
    }
  }

  // ---- the wire: chip-select edges and bytes ----

  datatype Event = CsLow | CsHigh | Sent(b: byte)

  function SentAll(bs: seq<byte>): seq<Event>
  {
    if bs == [] then [] else SentAll(bs[..|bs| - 1]) + [Sent(bs[|bs| - 1])]
  }

  /** Chip select falls, the bytes of the operation, chip select rises. */
  function FrameEvents(op: Op): seq<Event>
  {
    [CsLow] + SentAll(Encode(op)) + [CsHigh]
  }

  function RenderOps(ops: seq<Op>): seq<Event>
  {
    if ops == [] then [] else RenderOps(ops[..|ops| - 1]) + FrameEvents(ops[|ops| - 1])
  }

  /** The slave's receiver: chip select must idle high, bytes count only while it is low. */
  datatype Receiver = Receiver(selected: bool, frame: seq<byte>, ops: seq<Op>) | Broken

  function Receive(r: Receiver, e: Event): Receiver
  {
    match (r, e)
    case (Receiver(false, _, ops), CsLow) => Receiver(true, [], ops)
    case (Receiver(true, f, ops), Sent(b)) => Receiver(true, f + [b], ops)
    case (Receiver(true, f, ops), CsHigh) =>
      (match Decode(f)
       case Some(op) => Receiver(false, [], ops + [op])
       case None => Broken)
    case _ => Broken
  }

  function ReceiveAll(r: Receiver, trace: seq<Event>): Receiver
  {
    if trace == [] then r
    else Receive(ReceiveAll(r, trace[..|trace| - 1]), trace[|trace| - 1])
  }

  lemma {:induction false} ReceiveAppend(r: Receiver, a: seq<Event>, b: seq<Event>)
    ensures ReceiveAll(r, a + b) == ReceiveAll(ReceiveAll(r, a), b)
    decreases |b|
  {
    if b == [] {
      assert a + b == a;
    } else {
      assert (a + b)[..|a + b| - 1] == a + b[..|b| - 1];
      ReceiveAppend(r, a, b[..|b| - 1]);
    }
  }

  lemma {:induction false} ReceiveSent(ops: seq<Op>, bs: seq<byte>)
    ensures ReceiveAll(Receiver(true, [], ops), SentAll(bs)) == Receiver(true, bs, ops)
    decreases |bs|
  {
    if bs != [] {
      var front, last := bs[..|bs| - 1], bs[|bs| - 1];
      ReceiveSent(ops, front);
      ReceiveAppend(Receiver(true, [], ops), SentAll(front), [Sent(last)]);
      assert [Sent(last)][..0] == [];
      assert front + [last] == bs;
    }
  }

  lemma ReceiveOne(r: Receiver, e: Event)
    ensures ReceiveAll(r, [e]) == Receive(r, e)
  {
    assert [e][..0] == [];
  }

  lemma ReceiveFrame(ops: seq<Op>, op: Op)
    ensures ReceiveAll(Receiver(false, [], ops), FrameEvents(op)) ==
            Receiver(false, [], ops + [op])
  {
    var r0 := Receiver(false, [], ops);
    var r1 := Receiver(true, [], ops);
    ReceiveAppend(r0, [CsLow] + SentAll(Encode(op)), [CsHigh]);
    ReceiveAppend(r0, [CsLow], SentAll(Encode(op)));
    ReceiveOne(r0, CsLow);
    ReceiveSent(ops, Encode(op));
    ReceiveOne(Receiver(true, Encode(op), ops), CsHigh);
    DecodeEncode(op);
  }

  /** The slave decodes the framed byte trace of any operations to exactly those operations, and
      chip select is high before and after. */
  lemma {:induction false} TraceDecodes(ops: seq<Op>)
    ensures ReceiveAll(Receiver(false, [], []), RenderOps(ops)) == Receiver(false, [], ops)
    decreases |ops|
  {
    hide Receive, FrameEvents;
    if ops != [] {
      var front, last := ops[..|ops| - 1], ops[|ops| - 1];
      TraceDecodes(front);
      ReceiveAppend(Receiver(false, [], []), RenderOps(front), FrameEvents(last));
      ReceiveFrame(front, last);
      assert front + [last] == ops;
    }
  }

  // ---- the chip fed byte by byte agrees with the decoded operation ----

  /** The chip after the bytes m of a frame, and the bytes it answered. */
  function Feed(c: Chip, m: seq<byte>): (r: (Chip, seq<byte>))
    ensures |r.1| == |m|
    decreases |m|
  {
    if m == [] then (c, [])
    else
      var (c1, out) := Feed(c, m[..|m| - 1]);
      var (c2, b) := Exchange(c1, m[..|m| - 1], m[|m| - 1]);
      (c2, out + [b])
  }

  lemma FeedOne(c: Chip, m: seq<byte>, b: byte)
    ensures var (c1, out) := Feed(c, m);
            var (c2, x) := Exchange(c1, m, b);
            Feed(c, m + [b]) == (c2, out + [x])
  {
    assert (m + [b])[..|m|] == m;
  }

  lemma FeedHeader(c: Chip, a: byte, b: byte, d: byte)
    ensures Feed(c, [a, b, d]) == (c, [0, 0, 0])
  {
    assert [] + [a] == [a] && [a] + [b] == [a, b] && [a, b] + [d] == [a, b, d];
    FeedOne(c, [], a);
    assert Feed(c, [a]).1 == [0];
    FeedOne(c, [a], b);
    assert Feed(c, [a, b]).1 == [0, 0];
    FeedOne(c, [a, b], d);
    assert Feed(c, [a, b, d]).1 == [0, 0, 0];
  }

  lemma Header(addr: Word16)
    ensures Encode(Read(addr, 0)) == [COMM_SPI_READ, High(addr), Low(addr)]
    ensures Encode(Write(addr, [])) == [COMM_SPI_WRITE, High(addr), Low(addr)]
  {
  }

  lemma WriteStep(addr: Word16, data: seq<byte>, b: byte)
    ensures Encode(Write(addr, data + [b])) == Encode(Write(addr, data)) + [b]
  {
  }

  /** One more dummy byte of a read frame. */
  lemma ReadStep(c: Chip, addr: Word16, n: nat)
    ensures Encode(Read(addr, n + 1)) == Encode(Read(addr, n)) + [DUMMY_BYTE]
    ensures |Encode(Read(addr, n))| == n + 3
    ensures Exchange(c, Encode(Read(addr, n)), DUMMY_BYTE) == ReadByte(c, addr, n)
  {
    hide ReadByte;
    var m := Encode(Read(addr, n));
    assert Half([m[2], m[1]]) == addr;
  }

  lemma {:induction false} FeedRead(c: Chip, addr: Word16, n: nat)
    ensures var (c', bs) := ReadBytes(c, addr, n);
            Feed(c, Encode(Read(addr, n))) == (c', [0, 0, 0] + bs)
  {
    hide ReadByte, Encode, Feed, Exchange;
    if n == 0 {
      Header(addr);
      FeedHeader(c, COMM_SPI_READ, High(addr), Low(addr));
      assert [0, 0, 0] + ReadBytes(c, addr, n).1 == [0, 0, 0];
    } else {
      FeedRead(c, addr, n - 1);
      var (c1, bs) := ReadBytes(c, addr, n - 1);
      ReadStep(c1, addr, n - 1);
      FeedOne(c, Encode(Read(addr, n - 1)), DUMMY_BYTE);
      var (c2, b) := ReadByte(c1, addr, n - 1);
      assert ([0, 0, 0] + bs) + [b] == [0, 0, 0] + (bs + [b]);
    }
  }

  lemma {:induction false} FeedWrite(c: Chip, addr: Word16, data: seq<byte>)
    ensures Feed(c, Encode(Write(addr, data))).0 == WriteBytes(c, addr, data)
    decreases |data|
  {
    hide Exchange, Half, Feed;
    if data == [] {
      FeedHeader(c, COMM_SPI_WRITE, High(addr), Low(addr));
      Header(addr);
    } else {
      var front, b := data[..|data| - 1], data[|data| - 1];
      FeedWrite(c, addr, front);
      var m := Encode(Write(addr, front));
      LastDword(addr, data);
      FeedOne(c, m, b);
      WriteLast(Feed(c, m).0, addr, data);
      assert Encode(Write(addr, data)) == m + [b];
    }
  }

  lemma WriteLast(c: Chip, addr: Word16, data: seq<byte>)
    requires data != []
    ensures Exchange(c, Encode(Write(addr, data[..|data| - 1])), data[|data| - 1]).0 ==
            if |data| % 4 == 0 then WriteDword(c, addr + |data| - 4, data[|data| - 4..]) else c
  {
    hide Encode, Half, WriteDword, ReadByte;
    LastDword(addr, data);
    assert COMM_SPI_WRITE != COMM_SPI_READ;
  }

  /** The slave sees the DWORD of a write frame that its last byte completes. */
  lemma LastDword(addr: Word16, data: seq<byte>)
    requires data != []
    ensures var front, b := data[..|data| - 1], data[|data| - 1];
            var m := Encode(Write(addr, front));
            && |m| == |data| + 2 && m[0] == COMM_SPI_WRITE && Half([m[2], m[1]]) == addr
            && (|data| % 4 == 0 <==> (|m| - 3) % 4 == 3)
            && (|data| % 4 == 0 ==> m[|m| - 3..] + [b] == data[|data| - 4..])
  {
    var front, b := data[..|data| - 1], data[|data| - 1];
    var m := Encode(Write(addr, front));
    if |data| % 4 == 0 {
      assert m[|m| - 3..] == front[|front| - 3..];
      assert front[|front| - 3..] + [b] == data[|data| - 4..];
    }
  }

  /** The chip after one whole operation, starting from chip select high. */
  function OpEffect(c: Chip, op: Op): Chip
  {
    match op
    case Read(a, n) => ReadBytes(Tick(c), a, n).0
    case Write(a, data) => WriteBytes(Tick(c), a, data)
  }

  /** Feeding the bytes of a frame to the chip is executing the operation the frame decodes to. */
  lemma FramesExecute(c: Chip, op: Op)
    ensures Feed(Tick(c), Encode(op)).0 == OpEffect(c, Decode(Encode(op)).value)
  {
    DecodeEncode(op);
    match op
    case Read(a, n) => FeedRead(Tick(c), a, n);
    case Write(a, data) => FeedWrite(Tick(c), a, data);
  }

  /** The write-FIFO frames among the operations. */
  function Outbound(ops: seq<Op>): seq<Op>
  {
    if ops == [] then []
    else
      var last := ops[|ops| - 1];
      Outbound(ops[..|ops| - 1]) + if last.Write? && last.addr == ECAT_PRAM_WR_DATA then [last] else []
  }

  lemma OutboundAppend(ops: seq<Op>, op: Op)
    ensures Outbound(ops + [op]) == Outbound(ops) + if op.Write? && op.addr == ECAT_PRAM_WR_DATA then [op] else []
  {
    assert (ops + [op])[..|ops|] == ops;
  }

  /** The SPI bus: chip-select pin, chip, and what has crossed the wire. */
  class Bus {
    var chip: Chip
    var selected: bool
    ghost var base: Chip          // the chip at that moment
    var mosi: seq<byte>           // bytes sent since chip select last fell
    ghost var miso: seq<byte>     // bytes answered since then
    ghost var ops: seq<Op>        // completed operations
    ghost var trace: seq<Event>   // everything on the wire

    ghost predicate Valid()
      reads this
    {
      && (selected ==> (chip, miso) == Feed(base, mosi))
      && trace == RenderOps(ops) + if selected then [CsLow] + SentAll(mosi) else []
    }

    ghost predicate Idle()
      reads this
    {
      Valid() && !selected
    }

    lemma Fed()
      requires Valid() && selected
      ensures (chip, miso) == Feed(base, mosi) && |miso| == |mosi|
    {
      hide Feed;
    }

    /** Everything on the wire so far decodes to the completed operations, chip select high. */
    lemma WireDecodes()
      requires Idle()
      ensures ReceiveAll(Receiver(false, [], []), trace) == Receiver(false, [], ops)
    {
      hide RenderOps, ReceiveAll, Feed;
      TraceDecodes(ops);
      assert trace == RenderOps(ops);
    }

    constructor (chip: Chip)
      ensures Idle() && this.chip == chip && ops == []
    {
      this.chip, selected := chip, false;
      base, mosi, miso, ops, trace := chip, [], [], [], [];
    }

    /** The master's side: between two frames it may leave any ESC memory, and the chip any pace. */
    method MasterUpdate(esc: Esc, pace: seq<nat>)
      requires Idle()
      modifies this`chip
      ensures Idle() && chip == old(chip).(esc := esc, pace := pace)
    {
      chip := chip.(esc := esc, pace := pace);
    }

    /** The bus stays idle until the chip is through with what it had to do. */
    method Settle()
      requires Idle()
      modifies this`chip
      ensures Idle() && chip == Ticks(old(chip), |old(chip.pace)| + 1)
    {
      hide Tick;
      var n := |chip.pace| + 1;
      var i := n;
      while i > 0
        invariant 0 <= i <= n && Idle() && Ticks(chip, i) == Ticks(old(chip), n)
      {
        chip := Tick(chip);
        i := i - 1;
      }
    }

    /** SCS_Low_macro */
    method SelectLow()
      requires Idle()
      modifies this
      ensures Valid() && selected && mosi == [] && base == chip == Tick(old(chip)) && ops == old(ops)
    {
      hide Tick, Exchange, RenderOps;
      chip := Tick(chip);
      selected := true;
      base, mosi, miso, trace := chip, [], [], trace + [CsLow];
    }

    /** bcm2835_spi_transfer: one byte out, one byte back. */
    method Transfer(b: byte) returns (r: byte)
      requires Valid() && selected
      modifies this`chip, this`mosi, this`miso, this`trace
      ensures Valid() && mosi == old(mosi) + [b] && miso == old(miso) + [r]
    {
      hide Exchange, RenderOps;
      var (c, answer) := Exchange(chip, mosi, b);
      assert (mosi + [b])[..|mosi|] == mosi;
      chip, r := c, answer;
      mosi, miso, trace := mosi + [b], miso + [r], trace + [Sent(b)];
    }

    /** SCS_High_macro, after the bytes of op. */
    method SelectHigh(ghost op: Op)
      requires Valid() && selected && mosi == Encode(op)
      modifies this`selected, this`ops, this`trace
      ensures Idle() && ops == old(ops) + [op]
    {
      selected := false;
      assert (ops + [op])[..|ops|] == ops;
      ops, trace := ops + [op], trace + [CsHigh];
    }
  }
}
