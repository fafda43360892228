/** The CRC of the card-reader link (ccr.origin/CRC_Proc.c): the generator of section 2 of ITU-T V.41,
    x^16 + x^12 + x^5 + 1, highest bit first, start value 0. */
module CrcCcitt {
  import opened Binary
  import opened Sequences
  import Lfsr

  const POLYNOMIAL: word := 0x1021

  /** The generator without its leading term, highest power first. */
  const TAPS: seq<bool> :=
    [false, false, false, true, false, false, false, false,
     false, false, true, false, false, false, false, true]

  const GENERATOR: seq<bool> := [true] + TAPS

  function MessageBits(bytes: seq<byte>): (bits: seq<bool>)
    ensures |bits| == 8 * |bytes|
  {
    if bytes == [] then [] else BitsHighFirst(bytes[0], 8) + MessageBits(bytes[1..])
  }

  function FeedBit(crc: word, bit: bool): (r: word)
  {
    XorWord(2 * crc % 0x1_0000, POLYNOMIAL);
    if (crc >= 0x8000) != bit then Xor(2 * crc % 0x1_0000, POLYNOMIAL) else 2 * crc % 0x1_0000
  }

  function FeedBits(crc: word, bits: seq<bool>): (r: word)
    decreases |bits|
  {
    if bits == [] then crc else FeedBits(FeedBit(crc, bits[0]), bits[1..])
  }

  function Crc(bytes: seq<byte>): (r: word)
  {
    FeedBits(0, MessageBits(bytes))
  }

  // ---------- the code of CRC_Proc.c ----------

  /** One turn of the bit loop: `ch` holds the bits still to come, the next one on top. */
  method UpdateBit(crc: word, ch: word) returns (r: word)
    ensures r == FeedBit(crc, ch >= 0x8000)
  {
    XorTopBit(ch, crc);
    XorWord(2 * crc % 0x1_0000, POLYNOMIAL);
    if Xor(ch, crc) / 0x8000 % 2 != 0 {
      r := Xor(2 * crc % 0x1_0000, POLYNOMIAL);
    } else {
      r := 2 * crc % 0x1_0000;
    }
  }

  /** _calc_crc */
  method UpdateByte(crc: word, data: byte) returns (r: word)
    ensures r == FeedBits(crc, BitsHighFirst(data, 8))
  {
    r := crc;
    var ch: word := data * 0x100;
    ByteOnTop(data);
    for i := 8 downto 0
      invariant FeedBits(r, TopBits(ch, i)) == FeedBits(crc, BitsHighFirst(data, 8))
    {
      NextTopBit(ch, i);
      r := UpdateBit(r, ch);
      ch := 2 * ch % 0x1_0000;
    }
  }

  /** The `n` highest bits of a word, highest first. */
  function TopBits(ch: word, n: nat): (s: seq<bool>)
    requires n <= 16
  {
    BitsHighFirst(ch, 16)[..n]
  }

  lemma ByteOnTop(data: byte)
    ensures TopBits(data * 0x100, 8) == BitsHighFirst(data, 8)
  {
    WordOfBytesHighFirst(data * 0x100, data, 0);
  }

  lemma NextTopBit(ch: word, n: nat)
    requires n < 16
    ensures TopBits(ch, n + 1) == [ch >= 0x8000] + TopBits(2 * ch % 0x1_0000, n)
  {
    TopBit(ch);
  }

  /** _CrcCcitt and CrcCcitt */
  method Compute(bytes: seq<byte>) returns (crc: word)
    ensures crc == Crc(bytes)
  {
    crc := 0;
    assert bytes[..|bytes|] == bytes;
    for i := 0 to |bytes|
      invariant crc == Crc(bytes[..i])
    {
      assert bytes[..i + 1] == bytes[..i] + [bytes[i]];
      MessageBitsAppend(bytes[..i], [bytes[i]]);
      assert MessageBits([bytes[i]]) == BitsHighFirst(bytes[i], 8);
      FeedBitsAppend(0, MessageBits(bytes[..i]), BitsHighFirst(bytes[i], 8));
      crc := UpdateByte(crc, bytes[i]);
    }
  }

  // ---------- the register on bits ----------

  lemma HighTaps()
    ensures BitsHighFirst(0x10, 8) == [false, false, false, true, false, false, false, false]
  {
  }

  lemma LowTaps()
    ensures BitsHighFirst(0x21, 8) == [false, false, true, false, false, false, false, true]
  {
  }

  lemma Taps()
    ensures |TAPS| == 16 && TAPS[15]
    ensures BitsHighFirst(POLYNOMIAL, 16) == TAPS
  {
    HighTaps();
    LowTaps();
    WordOfBytesHighFirst(POLYNOMIAL, 0x10, 0x21);
  }

  lemma HighBitFirst(x: word)
    ensures BitsHighFirst(x, 16) == [x >= 0x8000] + BitsHighFirst(x, 15)
  {
    HighFirstSplit(x, 1, 15);
    HalveSteps(x);
    OneBit(x / 0x8000);
  }

  lemma OneBit(x: nat)
    requires x < 2
    ensures BitsHighFirst(x, 1) == [x == 1]
  {
  }

  lemma Doubled(x: nat, n: nat)
    ensures BitsHighFirst(2 * x, n + 1) == BitsHighFirst(x, n) + [false]
  {
    assert 2 * x / 2 == x;
  }

  /** Reducing twice a word to 16 bits does not show in its 16 low bits. */
  lemma DoubledLow(x: word)
    ensures BitsHighFirst(2 * x % 0x1_0000, 16) == BitsHighFirst(2 * x, 16)
  {
    var y: word := 2 * x % 0x1_0000;
    if x >= 0x8000 {
      HighFirstLowWord(1, y);
      assert 0x1_0000 * 1 + y == 2 * x;
    }
  }

  /** Moving a word up one place drops its first bit. */
  lemma TopBit(x: word)
    ensures BitsHighFirst(x, 16)[0] == (x >= 0x8000)
    ensures BitsHighFirst(2 * x % 0x1_0000, 16) == BitsHighFirst(x, 16)[1..] + [false]
  {
    HighBitFirst(x);
    DoubledLow(x);
    Doubled(x, 15);
  }

  lemma HalveSteps(x: nat)
    ensures Halve(x, 15) == Halve(Halve(x, 8), 7) == x / 0x8000
  {
    assert Halve(x, 15) == Halve(x / 0x20, 10) == Halve(x / 0x400, 5);
    assert Halve(x, 8) == x / 0x100;
  }

  lemma XorTopBit(a: word, b: word)
    ensures (Xor(a, b) / 0x8000 % 2 != 0) == ((a >= 0x8000) != (b >= 0x8000))
  {
    XorWord(a, b);
    var x: word := Xor(a, b);
    BitsHighFirstOfXor(a, b, 16);
    HighBitFirst(a);
    HighBitFirst(b);
    HighBitFirst(x);
    assert BitsHighFirst(x, 16)[0] == (x >= 0x8000);
  }

  lemma FeedBitOnBits(crc: word, bit: bool)
    ensures |TAPS| == 16
    ensures BitsHighFirst(FeedBit(crc, bit), 16) == Lfsr.Step(TAPS, BitsHighFirst(crc, 16), bit)
  {
    Taps();
    TopBit(crc);
    BitsHighFirstOfXor(2 * crc % 0x1_0000, POLYNOMIAL, 16);
  }

  lemma {:induction false} FeedBitsOnBits(crc: word, bits: seq<bool>)
    ensures |TAPS| == 16
    ensures BitsHighFirst(FeedBits(crc, bits), 16) == Lfsr.Feed(TAPS, BitsHighFirst(crc, 16), bits)
    decreases |bits|
  {
    Taps();
    if bits != [] {
      FeedBitOnBits(crc, bits[0]);
      FeedBitsOnBits(FeedBit(crc, bits[0]), bits[1..]);
    }
  }

  // ---------- properties of the code ----------

  lemma {:induction false} MessageBitsAppend(a: seq<byte>, b: seq<byte>)
    ensures MessageBits(a + b) == MessageBits(a) + MessageBits(b)
    decreases |a|
  {
    if a == [] {
      assert a + b == b;
    } else {
      JoinTail(a, b);
      MessageBitsAppend(a[1..], b);
    }
  }

  lemma {:induction false} FeedBitsAppend(crc: word, a: seq<bool>, b: seq<bool>)
    ensures FeedBits(crc, a + b) == FeedBits(FeedBits(crc, a), b)
    decreases |a|
  {
    if a == [] {
      assert a + b == b;
    } else {
      JoinTail(a, b);
      FeedBitsAppend(FeedBit(crc, a[0]), a[1..], b);
    }
  }

  /** The CRC is the remainder of the message polynomial, times x^16, divided by the generator. */
  lemma CrcIsRemainder(bytes: seq<byte>)
    ensures BitsHighFirst(Crc(bytes), 16) == Lfsr.Remainder(MessageBits(bytes) + Zeros(16), GENERATOR)
  {
    var bits := MessageBits(bytes);
    Taps();
    FeedBitsOnBits(0, bits);
    ZeroHighFirst(16);
    Lfsr.FeedIsRemainder(TAPS, Zeros(16), bits);
    assert Lfsr.XorPrefix(bits + Zeros(16), Zeros(16)) == bits + Zeros(16);
  }

  lemma TwoBytes(c1: byte, c2: byte, t: word)
    requires t == 0x100 * (c1 as int) + c2
    ensures MessageBits([c1, c2]) == BitsHighFirst(t, 16)
  {
    assert [c1, c2][1..] == [c2];
    assert MessageBits([c2]) == BitsHighFirst(c2, 8);
    WordOfBytesHighFirst(t, c1, c2);
  }

  /** A trailer goes through the register as one word. */
  lemma TrailerFed(message: seq<byte>, c1: byte, c2: byte, t: word)
    requires t == 0x100 * (c1 as int) + c2
    ensures Crc(message + [c1, c2]) == FeedBits(Crc(message), BitsHighFirst(t, 16))
  {
    MessageBitsAppend(message, [c1, c2]);
    FeedBitsAppend(0, MessageBits(message), MessageBits([c1, c2]));
    TwoBytes(c1, c2, t);
  }

  lemma SameParts(x: word, c1: byte, c2: byte)
    ensures (c1 == x / 0x100 && c2 == x % 0x100) <==> 0x100 * (c1 as int) + c2 == x
  {
  }

  /** Two trailing bytes carry the CRC of what precedes them, high byte first, exactly when the whole,
      trailer included, has CRC zero. */
  lemma TrailerIffZero(message: seq<byte>, c1: byte, c2: byte)
    ensures (c1 == Crc(message) / 0x100 && c2 == Crc(message) % 0x100) <==> Crc(message + [c1, c2]) == 0
  {
    var t: word := 0x100 * (c1 as int) + c2;
    TrailerFed(message, c1, c2, t);
    WordLeavesZeroIffEqual(Crc(message), t);
    SameParts(Crc(message), c1, c2);
  }

  lemma DifferentWords(a: word, b: word)
    requires a != b
    ensures Lfsr.XorPrefix(BitsHighFirst(a, 16), BitsHighFirst(b, 16)) != Zeros(16)
  {
    var r, m := BitsHighFirst(a, 16), BitsHighFirst(b, 16);
    var x := Lfsr.XorPrefix(r, m);
    if x == Zeros(16) {
      assert forall i :: 0 <= i < 16 ==> !x[i];
      assert r == m;
      WordHighFirstInjective(a, b);
    }
  }

  lemma WordLeavesZeroIffEqual(crc: word, t: word)
    ensures FeedBits(crc, BitsHighFirst(t, 16)) == 0 <==> t == crc
  {
    var r, m := BitsHighFirst(crc, 16), BitsHighFirst(t, 16);
    Taps();
    FeedBitsOnBits(crc, m);
    ZeroHighFirst(16);
    if t == crc {
      Lfsr.CodewordLeavesZero(TAPS, r);
      WordHighFirstInjective(FeedBits(crc, m), 0);
    } else {
      Lfsr.Absorb(TAPS, r, m);
      DifferentWords(crc, t);
      Lfsr.NeverCancels(TAPS, Lfsr.XorPrefix(r, m), 16);
    }
  }
}
