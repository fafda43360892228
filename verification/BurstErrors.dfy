/** Burst errors on the BDP bus: corruption confined to 16 consecutive bits of a frame is always noticed. */
module BurstErrors {
  import opened Binary
  import opened BdpWire
  import opened BdpReceiver
  import opened BdpStream
  import Crc16

  /** `received` is `sent` with one or more bits flipped, all of them among 16 consecutive bits in the order
      the bits travel, lowest bit of each byte first. */
  ghost predicate Burst(sent: seq<byte>, received: seq<byte>, at: nat)
  {
    && |received| == |sent| && received != sent
    && forall i :: 0 <= i < 8 * |sent| && !(at <= i < at + 16) ==>
         Crc16.MessageBits(received)[i] == Crc16.MessageBits(sent)[i]
  }

  // ---------- bits of the header fields ----------

  lemma TwoBytes(a: byte, b: byte)
    ensures Crc16.MessageBits([a, b]) == Bits(a, 8) + Bits(b, 8)
  {
    assert [a, b][1..] == [b];
  }

  lemma MiddleBits(front: seq<byte>, middle: seq<byte>, back: seq<byte>)
    ensures Crc16.MessageBits(front + (middle + back))[8 * |front|..8 * (|front| + |middle|)]
         == Crc16.MessageBits(middle)
  {
    Crc16.MessageBitsAppend(front, middle + back);
    Crc16.MessageBitsAppend(middle, back);
  }

  lemma AroundField(frame: seq<byte>, k: nat)
    requires k + 2 <= |frame|
    ensures frame == frame[..k] + ([frame[k], frame[k + 1]] + frame[k + 2..])
  {
  }

  lemma FieldSlice(frame: seq<byte>, k: nat)
    requires k + 2 <= |frame|
    ensures Crc16.MessageBits(frame)[8 * k..8 * k + 16] == Crc16.MessageBits([frame[k], frame[k + 1]])
  {
    AroundField(frame, k);
    MiddleBits(frame[..k], [frame[k], frame[k + 1]], frame[k + 2..]);
  }

  lemma FieldBits(frame: seq<byte>, k: nat)
    requires k + 2 <= |frame|
    ensures Crc16.MessageBits(frame)[8 * k..8 * k + 16] == Bits(ReadWord(frame, k), 16)
  {
    FieldSlice(frame, k);
    TwoBytes(frame[k], frame[k + 1]);
    FieldWord(frame, k);
  }

  lemma FieldWord(frame: seq<byte>, k: nat)
    requires k + 2 <= |frame|
    ensures Bits(ReadWord(frame, k), 16) == Bits(frame[k], 8) + Bits(frame[k + 1], 8)
  {
    var x := ReadWord(frame, k);
    ReadWordParts(frame, k);
    WordBits(x);
  }

  lemma FieldBit(frame: seq<byte>, k: nat, i: nat)
    requires k + 2 <= |frame| && i < 16
    ensures Crc16.MessageBits(frame)[8 * k + i] == Bits(ReadWord(frame, k), 16)[i]
  {
    FieldBits(frame, k);
    assert Crc16.MessageBits(frame)[8 * k..8 * k + 16][i] == Crc16.MessageBits(frame)[8 * k + i];
  }

  lemma DifferentWords(a: word, b: word) returns (i: nat)
    requires a != b
    ensures i < 16 && Bits(a, 16)[i] != Bits(b, 16)[i]
  {
    if forall k :: 0 <= k < 16 ==> Bits(a, 16)[k] == Bits(b, 16)[k] {
      WordBitsInjective(a, b);
    }
    i :| 0 <= i < 16 && Bits(a, 16)[i] != Bits(b, 16)[i];
  }

  lemma FieldBitOutside(sent: seq<byte>, received: seq<byte>, at: nat, k: nat, i: nat)
    requires Burst(sent, received, at) && k + 2 <= |sent| && i < 16
    requires Bits(ReadWord(sent, k), 16)[i] != Bits(ReadWord(received, k), 16)[i]
    ensures at <= 8 * k + i < at + 16
  {
    FieldBit(sent, k, i);
    FieldBit(received, k, i);
  }

  /** Words and their inverses differ at the same bits. */
  lemma InvertedDiffer(a: word, b: word, a': word, b': word, i: nat)
    requires i < 16 && Bits(a, 16)[i] != Bits(b, 16)[i]
    requires a' == 0xFFFF - a && b' == 0xFFFF - b
    ensures Bits(a', 16)[i] != Bits(b', 16)[i]
  {
    InvertedWord(a, i);
    InvertedWord(b, i);
  }

  /** Matching bits of the length and the inverted length are 16 places apart, so one burst cannot change
      both consistently. */
  lemma ConsistentLengthUnchanged(sent: seq<byte>, received: seq<byte>, at: nat)
    requires Framed(sent) && Burst(sent, received, at)
    requires LenInvField(received) == 0xFFFF - LenField(received)
    ensures LenField(received) == LenField(sent)
  {
    if LenField(received) != LenField(sent) {
      var i := DifferentWords(LenField(sent), LenField(received));
      InvertedDiffer(LenField(sent), LenField(received), LenInvField(sent), LenInvField(received), i);
      FieldBitOutside(sent, received, at, 2, i);
      FieldBitOutside(sent, received, at, 4, i);
      assert false;
    }
  }

  // ---------- the CRC ----------

  lemma {:induction false} MessageBitsInjective(a: seq<byte>, b: seq<byte>)
    requires |a| == |b| && Crc16.MessageBits(a) == Crc16.MessageBits(b)
    ensures a == b
    decreases |a|
  {
    if a != [] {
      assert Crc16.MessageBits(a)[..8] == Bits(a[0], 8) && Crc16.MessageBits(b)[..8] == Bits(b[0], 8);
      ByteBitsInjective(a[0], b[0]);
      assert Crc16.MessageBits(a)[8..] == Crc16.MessageBits(a[1..]);
      assert Crc16.MessageBits(b)[8..] == Crc16.MessageBits(b[1..]);
      MessageBitsInjective(a[1..], b[1..]);
      assert a == [a[0]] + a[1..] && b == [b[0]] + b[1..];
    }
  }

  /** The bits behind the CRC field. */
  lemma CoveredBits(frame: seq<byte>)
    requires |frame| >= 2
    ensures Crc16.MessageBits(frame[2..]) == Crc16.MessageBits(frame)[16..]
    ensures Crc16.MessageBits(frame[..2]) == Crc16.MessageBits(frame)[..16]
  {
    assert frame == frame[..2] + frame[2..];
    Crc16.MessageBitsAppend(frame[..2], frame[2..]);
  }

  lemma OnlyCrcFieldHit(sent: seq<byte>, received: seq<byte>)
    requires |sent| == |received| >= HEADER_SIZE && sent != received
    requires sent[2..] == received[2..]
    ensures CrcField(received) != CrcField(sent)
  {
    assert sent == [sent[0], sent[1]] + sent[2..];
    assert received == [received[0], received[1]] + received[2..];
  }

  /** A burst that changes covered bytes but neither length field lies wholly behind them. */
  lemma BurstBehindLength(sent: seq<byte>, received: seq<byte>, at: nat)
    requires |sent| >= HEADER_SIZE && Burst(sent, received, at) && sent[2..] != received[2..]
    requires LenField(received) == LenField(sent) && LenInvField(received) == LenInvField(sent)
    ensures at > 32
  {
    var a, b := Crc16.MessageBits(sent), Crc16.MessageBits(received);
    CoveredBits(sent);
    CoveredBits(received);
    if a[16..] == b[16..] {
      MessageBitsInjective(sent[2..], received[2..]);
    }
    var i :| 0 <= i < |a[16..]| && a[16..][i] != b[16..][i];
    assert a[16 + i] != b[16 + i];
    LengthBitsEqual(sent, received, 16 + i);
  }

  /** A burst that leaves both length fields alone breaks the CRC check. */
  lemma BurstBreaksCrc(sent: seq<byte>, received: seq<byte>, at: nat)
    requires WellFormed(sent) && Burst(sent, received, at)
    requires LenField(received) == LenField(sent) && LenInvField(received) == LenInvField(sent)
    ensures !CrcMatches(received)
  {
    if sent[2..] == received[2..] {
      OnlyCrcFieldHit(sent, received);
    } else {
      BurstBehindLength(sent, received, at);
      CrcFieldEqual(sent, received);
      CoveredBurst(sent, received, at);
    }
  }

  lemma CoveredBurst(sent: seq<byte>, received: seq<byte>, at: nat)
    requires |sent| >= HEADER_SIZE && Burst(sent, received, at) && sent[2..] != received[2..] && at > 32
    ensures Crc16.Crc(sent[2..]) != Crc16.Crc(received[2..])
  {
    var a, b := Crc16.MessageBits(sent), Crc16.MessageBits(received);
    CoveredBits(sent);
    CoveredBits(received);
    if a[16..] == b[16..] {
      MessageBitsInjective(sent[2..], received[2..]);
    }
    forall k | 0 <= k < |a[16..]| && !(at - 16 <= k < at)
      ensures a[16..][k] == b[16..][k]
    {
      assert a[16..][k] == a[16 + k] && b[16..][k] == b[16 + k];
    }
    Crc16.BurstChangesCrc(sent[2..], received[2..], at - 16);
  }

  lemma LengthBitsEqual(sent: seq<byte>, received: seq<byte>, i: nat)
    requires |sent| == |received| >= HEADER_SIZE && 16 <= i < 8 * |sent|
    requires LenField(received) == LenField(sent) && LenInvField(received) == LenInvField(sent)
    ensures i < 48 ==> Crc16.MessageBits(sent)[i] == Crc16.MessageBits(received)[i]
  {
    if i < 32 {
      FieldBit(sent, 2, i - 16);
      FieldBit(received, 2, i - 16);
    } else if i < 48 {
      FieldBit(sent, 4, i - 32);
      FieldBit(received, 4, i - 32);
    }
  }

  lemma CrcFieldEqual(sent: seq<byte>, received: seq<byte>)
    requires |sent| == |received| >= HEADER_SIZE
    requires forall i :: 0 <= i < 16 ==> Crc16.MessageBits(sent)[i] == Crc16.MessageBits(received)[i]
    ensures CrcField(sent) == CrcField(received)
  {
    if CrcField(sent) != CrcField(received) {
      var i := DifferentWords(CrcField(sent), CrcField(received));
      FieldBit(sent, 0, i);
      FieldBit(received, 0, i);
      assert false;
    }
  }

  // ---------- the receiver ----------

  /** A frame whose length fields contradict each other is dropped at its seventh byte. */
  lemma CorruptLengthDropped(rx: Rx, frame: seq<byte>)
    requires Valid(rx) && AtFrameStart(rx) && |frame| >= HEADER_SIZE
    requires LenInvField(frame) != 0xFFFF - LenField(frame)
    ensures Feed(rx, frame[..7]).0.phase == Idle && Feed(rx, frame[..7]).1 == []
  {
    LengthDecides(rx, frame);
  }

  /** Whatever burst of up to 16 bits hits a frame behind its start-of-frame byte, the reception attempt
      begun there ends, after `k` bytes, without delivering anything. */
  lemma BurstNeverDelivered(rx: Rx, sent: seq<byte>, received: seq<byte>, at: nat) returns (k: nat)
    requires Valid(rx) && AtFrameStart(rx)
    requires WellFormed(sent) && Burst(sent, received, at)
    ensures k <= |received|
    ensures Feed(rx, received[..k]).0.phase == Idle && Feed(rx, received[..k]).1 == []
  {
    if LenInvField(received) != 0xFFFF - LenField(received) {
      CorruptLengthDropped(rx, received);
      k := 7;
    } else {
      ConsistentLengthUnchanged(sent, received, at);
      BurstBreaksCrc(sent, received, at);
      FrameConsumed(rx, received);
      k := |received|;
      assert received[..k] == received;
    }
  }
}
