/** The CRC of the BDP bus (src/crc.c): reflected polynomial 0xA001, start value 0, one table look-up a byte. */
module Crc16 {
  import opened Binary
  import opened Sequences
  import Lfsr

  const POLYNOMIAL: word := 0xA001

  /** x^16 + x^15 + x^2 + 1 without its leading term, highest power first. */
  const TAPS: seq<bool> :=
    [true, false, false, false, false, false, false, false,
     false, false, false, false, false, true, false, true]

  const GENERATOR: seq<bool> := [true] + TAPS

  /** The bits of a message in the order they enter the code: lowest bit of each byte first. */
  function MessageBits(bytes: seq<byte>): (bits: seq<bool>)
    ensures |bits| == 8 * |bytes|
  {
    if bytes == [] then [] else Bits(bytes[0], 8) + MessageBits(bytes[1..])
  }

  /** One bit through the register: the bit-by-bit code that the table speeds up. */
  function FeedBit(crc: word, bit: bool): (r: word)
  {
    XorWord(crc / 2, POLYNOMIAL);
    if (crc % 2 == 1) != bit then Xor(crc / 2, POLYNOMIAL) else crc / 2
  }

  function FeedBits(crc: word, bits: seq<bool>): (r: word)
    decreases |bits|
  {
    if bits == [] then crc else FeedBits(FeedBit(crc, bits[0]), bits[1..])
  }

  /** The CRC of `bytes` continued from `crc`. */
  function Resume(crc: word, bytes: seq<byte>): (r: word)
  {
    FeedBits(crc, MessageBits(bytes))
  }

  function Crc(bytes: seq<byte>): (r: word)
  {
    Resume(0, bytes)
  }

  // ---------- the code of src/crc.c ----------

  ghost predicate IsTable(table: seq<word>)
  {
    |table| == 0x100 && forall i :: 0 <= i < 0x100 ==> table[i] == FeedBits(0, Bits(i, 8))
  }

  class CrcTable {
    const table: array<word>

    ghost predicate Valid()
      reads table
    {
      IsTable(table[..])
    }

    /** crc16_init */
    constructor ()
      ensures Valid() && fresh(table)
    {
      table := new word[0x100];
      new;
      for i := 0 to 0x100
        invariant forall k :: 0 <= k < i ==> table[k] == FeedBits(0, Bits(k, 8))
      {
        var value: word, temp: word := 0, i;
        for j := 0 to 8
          invariant FeedBits(value, Bits(temp, 8 - j)) == FeedBits(0, Bits(i, 8))
          invariant forall k :: 0 <= k < i ==> table[k] == FeedBits(0, Bits(k, 8))
        {
          XorLowBit(value, temp);
          XorWord(value / 2, POLYNOMIAL);
          if Xor(value, temp) % 2 != 0 {
            value := Xor(value / 2, POLYNOMIAL);
          } else {
            value := value / 2;
          }
          temp := temp / 2;
        }
        assert value == FeedBits(0, Bits(i, 8));
        table[i] := value;
      }
    }

    /** crc16_resume_compute */
    method ResumeCompute(previous: word, bytes: seq<byte>) returns (crc: word)
      requires Valid()
      ensures crc == Resume(previous, bytes)
    {
      crc := previous;
      assert bytes[..|bytes|] == bytes;
      for i := 0 to |bytes|
        invariant crc == Resume(previous, bytes[..i])
      {
        TableStep(table[..], crc, bytes[i]);
        var index := Xor(crc, bytes[i]) % 0x100;
        ResumeAppend(previous, bytes[..i], [bytes[i]]);
        assert bytes[..i + 1] == bytes[..i] + [bytes[i]];
        crc := Xor(crc / 0x100, table[index]);
      }
    }

    /** crc16_compute */
    method Compute(bytes: seq<byte>) returns (crc: word)
      requires Valid()
      ensures crc == Crc(bytes)
    {
      crc := ResumeCompute(0, bytes);
    }
  }

  // ---------- the register on bits ----------

  lemma LowTaps()
    ensures Bits(0x01, 8) == [true, false, false, false, false, false, false, false]
  {
  }

  lemma HighTaps()
    ensures Bits(0xA0, 8) == [false, false, false, false, false, true, false, true]
  {
  }

  lemma Taps()
    ensures |TAPS| == 16 && TAPS[15]
    ensures Bits(POLYNOMIAL, 16) == TAPS
  {
    LowTaps();
    HighTaps();
    WordOfBytes(POLYNOMIAL, 0xA0, 0x01);
  }

  lemma FeedBitOnBits(crc: word, bit: bool)
    ensures |TAPS| == 16
    ensures Bits(FeedBit(crc, bit), 16) == Lfsr.Step(TAPS, Bits(crc, 16), bit)
  {
    Taps();
    BitsOfXor(crc / 2, POLYNOMIAL, 16);
    TopBit(crc);
  }

  /** Moving a word down one place moves its bits down and clears the top one. */
  lemma TopBit(crc: word)
    ensures Bits(crc / 2, 16) == Bits(crc, 16)[1..] + [false]
  {
    BitsSplit(crc / 2, 15, 1);
    assert Bits(crc, 16)[1..] == Bits(crc / 2, 15);
    HalveByte(crc / 2);
    assert Halve(crc / 2, 15) == Halve(Halve(crc / 2, 8), 7) by { HalveTwice(crc / 2, 8, 7); }
    assert Halve(crc / 2 / 0x100, 7) == 0;
  }

  lemma {:induction false} HalveTwice(x: nat, m: nat, n: nat)
    ensures Halve(x, m + n) == Halve(Halve(x, m), n)
    decreases m
  {
    if m > 0 {
      HalveTwice(x / 2, m - 1, n);
    }
  }

  lemma {:induction false} FeedBitsOnBits(crc: word, bits: seq<bool>)
    ensures |TAPS| == 16
    ensures Bits(FeedBits(crc, bits), 16) == Lfsr.Feed(TAPS, Bits(crc, 16), bits)
    decreases |bits|
  {
    Taps();
    if bits != [] {
      FeedBitOnBits(crc, bits[0]);
      FeedBitsOnBits(FeedBit(crc, bits[0]), bits[1..]);
    }
  }

  lemma XorLowBit(a: nat, b: nat)
    ensures (Xor(a, b) % 2 == 1) == ((a % 2 == 1) != (b % 2 == 1))
  {
  }

  /** The identity behind the table: eight steps of the register are one look-up of its low byte. */
  lemma TableStep(table: seq<word>, crc: word, data: byte)
    requires IsTable(table)
    ensures var index := Xor(crc, data) % 0x100;
            Xor(crc / 0x100, table[index]) == Resume(crc, [data])
  {
    var index := Xor(crc, data) % 0x100;
    var high, low := Bits(crc / 0x100, 8), Bits(crc % 0x100, 8);
    var looked := table[index];
    Taps();
    IndexBits(crc, data);
    FeedBitsOnBits(0, Bits(index, 8));
    ZeroBits(16);
    EightSteps(high, low, Bits(data, 8));
    XorWord(crc / 0x100, looked);
    BitsOfXor(crc / 0x100, looked, 16);
    HighByteBits(crc);
    assert Bits(Xor(crc / 0x100, looked), 16) == Lfsr.Feed(TAPS, low + high, Bits(data, 8));
    WordBits(crc);
    FeedBitsOnBits(crc, Bits(data, 8));
    WordBitsInjective(Xor(crc / 0x100, looked), FeedBits(crc, Bits(data, 8)));
    assert MessageBits([data]) == Bits(data, 8);
  }

  lemma HighByteBits(x: word)
    ensures Bits(x / 0x100, 16) == Bits(x / 0x100, 8) + Zeros(8)
  {
    ZeroBits(8);
    WordOfBytes(x / 0x100, 0, x / 0x100);
  }

  lemma IndexBits(crc: word, data: byte)
    ensures Bits(Xor(crc, data) % 0x100, 8) == XorSeq(Bits(crc % 0x100, 8), Bits(data, 8))
  {
    LowByteOf(Xor(crc, data));
    LowByteOf(crc);
    BitsOfXor(crc, data, 8);
  }

  /** Eight message bits over a register `low + high`. */
  lemma EightSteps(high: seq<bool>, low: seq<bool>, data: seq<bool>)
    requires |high| == |low| == |data| == 8 && |TAPS| == 16
    ensures Lfsr.Feed(TAPS, low + high, data)
         == XorSeq(high + Zeros(8), Lfsr.Feed(TAPS, Zeros(16), XorSeq(low, data)))
  {
    var x := XorSeq(low, data);
    Lfsr.Absorb(TAPS, low + high, data);
    Lfsr.Absorb(TAPS, Zeros(16), x);
    var r, s := Zeros(8) + high, x + Zeros(8);
    assert Lfsr.XorPrefix(low + high, data) == XorSeq(r, s);
    assert Lfsr.XorPrefix(Zeros(16), x) == s;
    assert Zeros(8) == XorSeq(Zeros(8), Zeros(8));
    Lfsr.FeedLinear(TAPS, r, s, Zeros(8), Zeros(8));
    Lfsr.ShiftOut(TAPS, high, 8);
  }

  // ---------- properties of the code ----------

  lemma {:induction false} MessageBitsAppend(a: seq<byte>, b: seq<byte>)
    ensures MessageBits(a + b) == MessageBits(a) + MessageBits(b)
    decreases |a|
  {
    if a == [] {
      assert a + b == b;
    } else {
      JoinTail(a, b);
      MessageBitsAppend(a[1..], b);
    }
  }

  lemma {:induction false} FeedBitsAppend(crc: word, a: seq<bool>, b: seq<bool>)
    ensures FeedBits(crc, a + b) == FeedBits(FeedBits(crc, a), b)
    decreases |a|
  {
    if a == [] {
      assert a + b == b;
    } else {
      JoinTail(a, b);
      FeedBitsAppend(FeedBit(crc, a[0]), a[1..], b);
    }
  }

  /** Resuming from the CRC of `a` over `b` gives the CRC of `a` followed by `b`. */
  lemma ResumeAppend(crc: word, a: seq<byte>, b: seq<byte>)
    ensures Resume(crc, a + b) == Resume(Resume(crc, a), b)
  {
    MessageBitsAppend(a, b);
    FeedBitsAppend(crc, MessageBits(a), MessageBits(b));
  }

  /** The CRC is the remainder of the message polynomial, times x^16, divided by the generator. */
  lemma CrcIsRemainder(bytes: seq<byte>)
    ensures Bits(Crc(bytes), 16) == Lfsr.Remainder(MessageBits(bytes) + Zeros(16), GENERATOR)
  {
    var bits := MessageBits(bytes);
    Taps();
    FeedBitsOnBits(0, bits);
    ZeroBits(16);
    Lfsr.FeedIsRemainder(TAPS, Zeros(16), bits);
    assert Lfsr.XorPrefix(bits + Zeros(16), Zeros(16)) == bits + Zeros(16);
  }

  /** Two messages that differ, but only inside 16 consecutive bits, have different CRCs. */
  lemma BurstChangesCrc(a: seq<byte>, b: seq<byte>, at: nat)
    requires |a| == |b| && MessageBits(a) != MessageBits(b)
    requires forall i :: 0 <= i < 8 * |a| && !(at <= i < at + 16) ==> MessageBits(a)[i] == MessageBits(b)[i]
    ensures Crc(a) != Crc(b)
  {
    Taps();
    ZeroBits(16);
    FeedBitsOnBits(0, MessageBits(a));
    FeedBitsOnBits(0, MessageBits(b));
    Lfsr.BurstChangesRegister(TAPS, Zeros(16), MessageBits(a), MessageBits(b), at);
  }
}
