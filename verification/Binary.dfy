/** Unsigned machine words as natural numbers: bytes, 16-bit words, exclusive or, and the bits of a number. */
module Binary {

  type byte = x: int | 0 <= x < 0x100
  type word = x: int | 0 <= x < 0x1_0000

  function Pow2(n: nat): (p: nat)
    ensures p > 0
  {
    if n == 0 then 1 else 2 * Pow2(n - 1)
  }

  /** C's `^` on unsigned operands. */
  function Xor(a: nat, b: nat): (c: nat)
    decreases a + b
  {
    if a == 0 && b == 0 then 0 else 2 * Xor(a / 2, b / 2) + (a % 2 + b % 2) % 2
  }

  /** The `n` low bits of `x`, lowest first. */
  function Bits(x: nat, n: nat): (s: seq<bool>)
    ensures |s| == n
    decreases n, x
  {
    if n == 0 then [] else [x % 2 == 1] + Bits(x / 2, n - 1)
  }

  /** The same bits, highest first. */
  function BitsHighFirst(x: nat, n: nat): (s: seq<bool>)
    ensures |s| == n
    decreases n, x
  {
    if n == 0 then [] else BitsHighFirst(x / 2, n - 1) + [x % 2 == 1]
  }

  // ---------- sequences of bits ----------

  function Zeros(n: nat): (z: seq<bool>)
    ensures |z| == n && forall i :: 0 <= i < n ==> !z[i]
  {
    seq(n, _ => false)
  }

  function XorSeq(a: seq<bool>, b: seq<bool>): (c: seq<bool>)
    requires |a| == |b|
    ensures |c| == |a| && forall i :: 0 <= i < |a| ==> c[i] == (a[i] != b[i])
  {
    seq(|a|, i requires 0 <= i < |a| => a[i] != b[i])
  }

  // ---------- lemmas ----------

  lemma Powers()
    ensures Pow2(8) == 0x100 && Pow2(16) == 0x1_0000
  {
    assert Pow2(4) == 0x10;
    assert Pow2(8) == 0x100;
    assert Pow2(12) == 0x1000;
  }

  lemma {:induction false} XorBounded(a: nat, b: nat, n: nat)
    requires a < Pow2(n) && b < Pow2(n)
    ensures Xor(a, b) < Pow2(n)
    decreases n
  {
    if n > 0 {
      XorBounded(a / 2, b / 2, n - 1);
    }
  }

  lemma XorWord(a: word, b: word)
    ensures Xor(a, b) < 0x1_0000
  {
    Powers();
    XorBounded(a, b, 16);
  }

  lemma {:induction false} BitsOfXor(a: nat, b: nat, n: nat)
    ensures Bits(Xor(a, b), n) == XorSeq(Bits(a, n), Bits(b, n))
    decreases n
  {
    if n > 0 {
      BitsOfXor(a / 2, b / 2, n - 1);
      assert Xor(a, b) / 2 == Xor(a / 2, b / 2);
    }
  }

  lemma {:induction false} BitsHighFirstOfXor(a: nat, b: nat, n: nat)
    ensures BitsHighFirst(Xor(a, b), n) == XorSeq(BitsHighFirst(a, n), BitsHighFirst(b, n))
    decreases n
  {
    if n > 0 {
      BitsHighFirstOfXor(a / 2, b / 2, n - 1);
      assert Xor(a, b) / 2 == Xor(a / 2, b / 2);
    }
  }

  lemma {:induction false} BitsInjective(a: nat, b: nat, n: nat)
    requires a < Pow2(n) && b < Pow2(n)
    requires Bits(a, n) == Bits(b, n)
    ensures a == b
    decreases n
  {
    if n > 0 {
      assert Bits(a, n)[0] == Bits(b, n)[0];
      assert Bits(a, n)[1..] == Bits(a / 2, n - 1);
      assert Bits(b, n)[1..] == Bits(b / 2, n - 1);
      BitsInjective(a / 2, b / 2, n - 1);
    }
  }

  lemma WordBitsInjective(a: word, b: word)
    requires Bits(a, 16) == Bits(b, 16)
    ensures a == b
  {
    Powers();
    BitsInjective(a, b, 16);
  }

  lemma ByteBitsInjective(a: byte, b: byte)
    requires Bits(a, 8) == Bits(b, 8)
    ensures a == b
  {
    Powers();
    BitsInjective(a, b, 8);
  }

  lemma DoubledProduct(p: nat, h: nat)
    ensures 2 * p * h == 2 * (p * h)
  {
  }

  lemma HalfSum(h: nat, l: nat, n: nat)
    requires n > 0
    ensures (Pow2(n) * h + l) / 2 == Pow2(n - 1) * h + l / 2
    ensures (Pow2(n) * h + l) % 2 == l % 2
  {
    DoubledProduct(Pow2(n - 1), h);
    var half := Pow2(n - 1) * h;
    assert Pow2(n) * h + l == 2 * half + l;
  }

  /** Adding a multiple of 2^n leaves the `n` low bits alone. */
  lemma {:induction false} BitsLow(h: nat, l: nat, n: nat)
    ensures Bits(Pow2(n) * h + l, n) == Bits(l, n)
    decreases n
  {
    if n > 0 {
      HalfSum(h, l, n);
      BitsLow(h, l / 2, n - 1);
    }
  }

  lemma LowByte(h: nat, l: nat)
    ensures Bits(0x100 * h + l, 8) == Bits(l, 8)
  {
    Powers();
    BitsLow(h, l, 8);
  }

  lemma LowByteOf(x: nat)
    ensures Bits(x % 0x100, 8) == Bits(x, 8)
  {
    LowByte(x / 0x100, x % 0x100);
  }

  function Halve(x: nat, m: nat): (y: nat)
    decreases m
  {
    if m == 0 then x else Halve(x / 2, m - 1)
  }

  lemma {:induction false} BitsSplit(x: nat, m: nat, n: nat)
    ensures Bits(x, m + n) == Bits(x, m) + Bits(Halve(x, m), n)
    decreases m
  {
    if m > 0 {
      BitsSplit(x / 2, m - 1, n);
      assert Bits(x, m + n) == [x % 2 == 1] + Bits(x / 2, m - 1 + n);
    }
  }

  lemma HalveByte(x: nat)
    ensures Halve(x, 8) == x / 0x100
  {
    assert Halve(x, 8) == Halve(x / 0x10, 4) == x / 0x100;
  }

  lemma WordOfBytes(x: word, high: byte, low: byte)
    requires x == 0x100 * (high as int) + low
    ensures Bits(x, 16) == Bits(low, 8) + Bits(high, 8)
  {
    WordBits(x);
  }

  /** A word is its low byte followed by its high byte. */
  lemma WordBits(x: word)
    ensures Bits(x, 16) == Bits(x % 0x100, 8) + Bits(x / 0x100, 8)
  {
    BitsSplit(x, 8, 8);
    HalveByte(x);
    LowByte(x / 0x100, x % 0x100);
  }

  /** Inverting a number inverts its bits. */
  lemma {:induction false} InvertedBits(x: nat, n: nat, i: nat)
    requires i < n && x < Pow2(n)
    ensures Bits(Pow2(n) - 1 - x, n)[i] == !Bits(x, n)[i]
    decreases n
  {
    var y := Pow2(n) - 1 - x;
    assert y / 2 == Pow2(n - 1) - 1 - x / 2;
    if i > 0 {
      InvertedBits(x / 2, n - 1, i - 1);
    }
  }

  lemma InvertedWord(x: word, i: nat)
    requires i < 16
    ensures Bits(0xFFFF - x, 16)[i] == !Bits(x, 16)[i]
  {
    Powers();
    InvertedBits(x, 16, i);
  }

  lemma {:induction false} HighFirstSplit(x: nat, m: nat, n: nat)
    ensures BitsHighFirst(x, m + n) == BitsHighFirst(Halve(x, n), m) + BitsHighFirst(x, n)
    decreases n
  {
    if n > 0 {
      HighFirstSplit(x / 2, m, n - 1);
      assert BitsHighFirst(x, m + n) == BitsHighFirst(x / 2, m + n - 1) + [x % 2 == 1];
    }
  }

  lemma {:induction false} HighFirstLow(h: nat, l: nat, n: nat)
    ensures BitsHighFirst(Pow2(n) * h + l, n) == BitsHighFirst(l, n)
    decreases n
  {
    if n > 0 {
      HalfSum(h, l, n);
      HighFirstLow(h, l / 2, n - 1);
    }
  }

  lemma HighFirstLowByte(h: nat, l: nat)
    ensures BitsHighFirst(0x100 * h + l, 8) == BitsHighFirst(l, 8)
  {
    Powers();
    HighFirstLow(h, l, 8);
  }

  lemma HighFirstLowWord(h: nat, l: nat)
    ensures BitsHighFirst(0x1_0000 * h + l, 16) == BitsHighFirst(l, 16)
  {
    Powers();
    HighFirstLow(h, l, 16);
  }

  /** A word, highest bit first, is its high byte followed by its low byte. */
  lemma WordHighFirst(x: word)
    ensures BitsHighFirst(x, 16) == BitsHighFirst(x / 0x100, 8) + BitsHighFirst(x % 0x100, 8)
  {
    HighFirstSplit(x, 8, 8);
    HalveByte(x);
    HighFirstLowByte(x / 0x100, x % 0x100);
  }

  lemma WordOfBytesHighFirst(x: word, high: byte, low: byte)
    requires x == 0x100 * (high as int) + low
    ensures BitsHighFirst(x, 16) == BitsHighFirst(high, 8) + BitsHighFirst(low, 8)
  {
    WordHighFirst(x);
  }

  lemma {:induction false} HighFirstInjective(a: nat, b: nat, n: nat)
    requires a < Pow2(n) && b < Pow2(n)
    requires BitsHighFirst(a, n) == BitsHighFirst(b, n)
    ensures a == b
    decreases n
  {
    if n > 0 {
      assert BitsHighFirst(a, n)[n - 1] == BitsHighFirst(b, n)[n - 1];
      assert BitsHighFirst(a, n)[..n - 1] == BitsHighFirst(a / 2, n - 1);
      assert BitsHighFirst(b, n)[..n - 1] == BitsHighFirst(b / 2, n - 1);
      HighFirstInjective(a / 2, b / 2, n - 1);
    }
  }

  lemma WordHighFirstInjective(a: word, b: word)
    requires BitsHighFirst(a, 16) == BitsHighFirst(b, 16)
    ensures a == b
  {
    Powers();
    HighFirstInjective(a, b, 16);
  }

  lemma {:induction false} ZeroHighFirst(n: nat)
    ensures BitsHighFirst(0, n) == Zeros(n)
    decreases n
  {
    if n > 0 {
      ZeroHighFirst(n - 1);
    }
  }

  lemma {:induction false} ZeroBits(n: nat)
    ensures Bits(0, n) == Zeros(n)
    decreases n
  {
    if n > 0 {
      ZeroBits(n - 1);
    }
  }
}
