// The byte/word overlays of rpi_base.h (UWORD, ULONG, PROCBUFFER) on a little-endian machine,
// and the fixed widths of the C++ integer types.
module Words {

  const TWO_16: int := 0x1_0000
  const TWO_32: int := 0x1_0000_0000
  const TWO_63: int := 0x8000_0000_0000_0000
  const TWO_64: int := 0x1_0000_0000_0000_0000

  type byte = b: int | 0 <= b < 256
  type Word16 = w: int | 0 <= w < TWO_16
  type Word32 = w: int | 0 <= w < TWO_32
  type Word64 = w: int | 0 <= w < TWO_64

  /** The number of 64-bit words in a PROCBUFFER. */
  const WORDS: int := 4

  /** PROCBUFFER seen through its `ul` view. */
  type Message = m: seq<Word64> | |m| == WORDS witness [0, 0, 0, 0]

  const ZERO_MESSAGE: Message := [0, 0, 0, 0]

  /** The last message of a history that starts with the zero buffer. */
  function Latest(ms: seq<Message>): Message
  {
    if ms == [] then ZERO_MESSAGE else ms[|ms| - 1]
  }

  /** 256 to the power n. */
  function Pow256(n: nat): (p: nat)
    ensures p > 0
  {
    if n == 0 then 1 else 256 * Pow256(n - 1)
  }

  /** The n low bytes of v, least significant first. */
  function ToBytes(v: nat, n: nat): (bs: seq<byte>)
    ensures |bs| == n
  {
    if n == 0 then [] else [v % 256] + ToBytes(v / 256, n - 1)
  }

  /** The number whose bytes, least significant first, are bs. */
  function FromBytes(bs: seq<byte>): nat
  {
    if bs == [] then 0 else bs[0] + 256 * FromBytes(bs[1..])
  }

  lemma {:induction false} MulAtLeast(d: nat, x: nat)
    requires x > 0
    ensures d * x >= d
  {
    if x > 1 {
      MulAtLeast(d, x - 1);
    }
  }

  lemma MulFarFromZero(d: int, x: int)
    requires d > 0 && x != 0
    ensures d * x >= d || d * x <= -d
  {
    MulAtLeast(d, if x > 0 then x else -x);
  }

  lemma ModUnique(v: int, d: int, k: int, r: int)
    requires 0 <= r < d && v == d * k + r
    ensures v % d == r
  {
    var k', r' := v / d, v % d;
    var gap := k - k';
    assert d * gap == d * k - d * k';
    assert d * gap == r' - r;
    if gap != 0 {
      MulFarFromZero(d, gap);
    }
  }

  lemma DivModUnique(v: int, d: int, k: int, r: int)
    requires 0 <= r < d && v == d * k + r
    ensures v % d == r && v / d == k
  {
    ModUnique(v, d, k, r);
    var gap := v / d - k;
    assert d * gap == d * (v / d) - d * k == 0;
    if gap != 0 {
      MulFarFromZero(d, gap);
    }
  }

  lemma DivMod256(v: nat, p: nat)
    requires p > 0
    ensures v % (256 * p) == v % 256 + 256 * ((v / 256) % p)
  {
    var q, r := v / 256, v % 256;
    var k, m := q / p, q % p;
    assert 256 * (p * k) == (256 * p) * k;
    assert v == (256 * p) * k + (256 * m + r);
    ModUnique(v, 256 * p, k, 256 * m + r);
  }

  /** Overlaying a number on n bytes and reading it back keeps it modulo 256^n. */
  lemma {:induction false} FromToBytes(v: nat, n: nat)
    ensures FromBytes(ToBytes(v, n)) == v % Pow256(n)
  {
    if n > 0 {
      FromToBytes(v / 256, n - 1);
      DivMod256(v, Pow256(n - 1));
      assert ToBytes(v, n)[1..] == ToBytes(v / 256, n - 1);
    }
  }

  lemma {:induction false} FromBytesBound(bs: seq<byte>)
    ensures FromBytes(bs) < Pow256(|bs|)
  {
    if bs != [] {
      FromBytesBound(bs[1..]);
    }
  }

  /** Every byte string is the overlay of the number it denotes. */
  lemma {:induction false} ToFromBytes(bs: seq<byte>)
    ensures ToBytes(FromBytes(bs), |bs|) == bs
  {
    if bs != [] {
      ToFromBytes(bs[1..]);
      var rest := FromBytes(bs[1..]);
      assert (bs[0] + 256 * rest) / 256 == rest && (bs[0] + 256 * rest) % 256 == bs[0];
      assert bs == [bs[0]] + bs[1..];
    }
  }

  /** The low bytes of a number do not depend on how many bytes are taken. */
  lemma {:induction false} ToBytesPrefix(v: nat, k: nat, n: nat)
    requires k <= n
    ensures ToBytes(v, n)[..k] == ToBytes(v, k)
  {
    if k > 0 {
      ToBytesPrefix(v / 256, k - 1, n - 1);
      assert ToBytes(v, n)[..k] == [v % 256] + ToBytes(v / 256, n - 1)[..k - 1];
    }
  }

  /** The `Byte` view of a buffer given by its `ul` view. */
  function MessageBytes(ws: seq<Word64>): (bs: seq<byte>)
    ensures |bs| == 8 * |ws|
  {
    if ws == [] then [] else ToBytes(ws[0], 8) + MessageBytes(ws[1..])
  }

  /** The `ul` view of a buffer given by its `Byte` view. */
  function MessageWords(bs: seq<byte>): (ws: seq<nat>)
    requires |bs| % 8 == 0
    ensures |ws| == |bs| / 8
  {
    if bs == [] then [] else [FromBytes(bs[..8])] + MessageWords(bs[8..])
  }

  lemma MessageParts(ws: seq<Word64>)
    requires ws != []
    ensures MessageBytes(ws)[..8] == ToBytes(ws[0], 8) && MessageBytes(ws)[8..] == MessageBytes(ws[1..])
  {
    hide ToBytes;
  }

  lemma {:induction false} WordsOfBytes(ws: seq<Word64>)
    ensures MessageWords(MessageBytes(ws)) == ws
  {
    hide ToBytes, FromBytes, MessageBytes, Pow256;
    if ws == [] {
      assert MessageBytes(ws) == [];
    } else {
      MessageParts(ws);
      FromToBytes(ws[0], 8);
      Pow256Eight();
      WordsOfBytes(ws[1..]);
    }
  }

  lemma Pow256Small()
    ensures Pow256(1) == 0x100 && Pow256(2) == TWO_16 && Pow256(3) == 0x100_0000 && Pow256(4) == TWO_32
  {
    assert Pow256(1) == 256 * Pow256(0);
    assert Pow256(2) == 256 * Pow256(1);
    assert Pow256(3) == 256 * Pow256(2);
    assert Pow256(4) == 256 * Pow256(3);
  }

  lemma Pow256Eight()
    ensures Pow256(8) == TWO_64
  {
    Pow256Small();
    assert Pow256(5) == 256 * Pow256(4);
    assert Pow256(6) == 256 * Pow256(5);
    assert Pow256(7) == 256 * Pow256(6);
    assert Pow256(8) == 256 * Pow256(7);
  }

  /** Byte k of the overlay is byte k % 8 of word k / 8. */
  lemma {:induction false} MessageByteAt(ws: seq<Word64>, k: nat)
    requires k < 8 * |ws|
    ensures MessageBytes(ws)[k] == ToBytes(ws[k / 8], 8)[k % 8]
  {
    if k >= 8 {
      MessageByteAt(ws[1..], k - 8);
      assert (k - 8) / 8 == k / 8 - 1 && (k - 8) % 8 == k % 8;
      assert MessageBytes(ws)[k] == MessageBytes(ws[1..])[k - 8];
    }
  }

  /** The `ul` view of a 32-byte buffer. */
  function BufferWords(bs: seq<byte>): (m: Message)
    requires |bs| == 8 * WORDS
  {
    EightBytes(bs[..8]);
    EightBytes(bs[8..16]);
    EightBytes(bs[16..24]);
    EightBytes(bs[24..]);
    [FromBytes(bs[..8]), FromBytes(bs[8..16]), FromBytes(bs[16..24]), FromBytes(bs[24..])]
  }

  /** The words of a 32-byte buffer, as bytes again: the buffer. */
  lemma BufferBytes(bs: seq<byte>)
    requires |bs| == 8 * WORDS
    ensures MessageBytes(BufferWords(bs)) == bs
  {
    hide ToBytes, FromBytes, MessageBytes;
    var m := BufferWords(bs);
    forall k | 0 <= k < |bs| ensures MessageBytes(m)[k] == bs[k] {
      MessageByteAt(m, k);
      var w := k / 8;
      var slice := bs[8 * w..8 * w + 8];
      assert bs[24..] == bs[24..32];
      assert w == 0 || w == 1 || w == 2 || w == 3;
      assert m[w] == FromBytes(slice);
      ToFromBytes(slice);
      assert slice[k % 8] == bs[k];
    }
  }

  /** Byte k of a number, counted from the least significant one. */
  lemma {:induction false} ToBytesAt(v: nat, n: nat, k: nat)
    requires k < n
    ensures ToBytes(v, n)[k] == (v / Pow256(k)) % 256
  {
    if k > 0 {
      ToBytesAt(v / 256, n - 1, k - 1);
      DivTwice(v, 256, Pow256(k - 1));
    }
  }

  lemma DivTwice(v: nat, a: nat, b: nat)
    requires a > 0 && b > 0
    ensures a * b > 0 && v / a / b == v / (a * b)
  {
    var q, r := v / a, v % a;
    var k, l := q / b, q % b;
    Regroup(a, b, k, l);
    RoomAbove(a, l, b);
    assert v == a * q + r && q == b * k + l;
    DivModUnique(v, a * b, k, a * l + r);
  }

  lemma Regroup(a: int, b: int, k: int, l: int)
    ensures a * (b * k + l) == (a * b) * k + a * l
  {
  }

  lemma RoomAbove(a: nat, l: nat, b: nat)
    requires a > 0 && l < b
    ensures a * l + a <= a * b
  {
    MulAtLeast(a, b - l);
    assert a * (b - l) == a * b - a * l;
  }

  lemma EightBytes(bs: seq<byte>)
    requires |bs| == 8
    ensures FromBytes(bs) < TWO_64
  {
    FromBytesBound(bs);
    Pow256Eight();
  }

  lemma {:induction false} ZeroBytes(n: nat, k: nat)
    requires k < n
    ensures ToBytes(0, n)[k] == 0
  {
    if k > 0 {
      ZeroBytes(n - 1, k - 1);
    }
  }
}
