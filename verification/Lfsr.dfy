/** The shift register behind both CRCs of the system, on bits: register bit 0 is the bit that leaves, and
    `p` holds the generator polynomial without its leading coefficient, highest power first. */
module Lfsr {
  import opened Binary
  import opened Sequences

  function Step(p: seq<bool>, r: seq<bool>, bit: bool): (r': seq<bool>)
    requires |r| == |p| > 0
    ensures |r'| == |p|
  {
    var moved := r[1..] + [false];
    if r[0] != bit then XorSeq(moved, p) else moved
  }

  function Feed(p: seq<bool>, r: seq<bool>, bits: seq<bool>): (r': seq<bool>)
    requires |r| == |p| > 0
    ensures |r'| == |p|
    decreases |bits|
  {
    if bits == [] then r else Feed(p, Step(p, r, bits[0]), bits[1..])
  }

  /** Adds `b` to the first bits of `a`. */
  function XorPrefix(a: seq<bool>, b: seq<bool>): (c: seq<bool>)
    requires |b| <= |a|
    ensures |c| == |a|
    ensures forall i :: 0 <= i < |a| ==> c[i] == (if i < |b| then a[i] != b[i] else a[i])
  {
    XorSeq(a[..|b|], b) + a[|b|..]
  }

  /** Long division of polynomials over GF(2), coefficients highest power first: while the dividend is at
      least as long as the monic divisor `g`, cancel a leading one with `g`, then drop the leading zero. */
  function Remainder(s: seq<bool>, g: seq<bool>): (r: seq<bool>)
    requires |g| > 0 && g[0]
    ensures |s| >= |g| - 1 ==> |r| == |g| - 1
    decreases |s|
  {
    if |s| < |g| then s
    else if s[0] then Remainder(XorPrefix(s, g)[1..], g)
    else Remainder(s[1..], g)
  }

  // ---------- the register computes the remainder ----------

  /** Coefficient `i` after one division step. */
  lemma DivisionAt(p: seq<bool>, r: seq<bool>, d: seq<bool>, i: nat)
    requires 0 < |r| == |p| < |d| && i < |d| - 1
    ensures var s, g := XorPrefix(d, r), [true] + p;
            (if s[0] then XorPrefix(s, g)[i + 1] else s[i + 1]) == XorPrefix(d[1..], Step(p, r, d[0]))[i]
  {
    var s, g, moved := XorPrefix(d, r), [true] + p, r[1..] + [false];
    assert s[0] == (d[0] != r[0]);
    assert d[1..][i] == d[i + 1];
    if i < |p| {
      assert g[i + 1] == p[i];
      assert s[i + 1] == (d[i + 1] != moved[i]);
    }
  }

  /** One division step on the dividend is one step of the register. */
  lemma DivisionStep(p: seq<bool>, r: seq<bool>, d: seq<bool>)
    requires 0 < |r| == |p| < |d|
    ensures var s := XorPrefix(d, r);
            (if s[0] then XorPrefix(s, [true] + p)[1..] else s[1..])
              == XorPrefix(d[1..], Step(p, r, d[0]))
  {
    var s := XorPrefix(d, r);
    var a := if s[0] then XorPrefix(s, [true] + p)[1..] else s[1..];
    var b := XorPrefix(d[1..], Step(p, r, d[0]));
    forall i | 0 <= i < |a|
      ensures a[i] == b[i]
    {
      DivisionAt(p, r, d, i);
    }
  }

  /** Feeding a message is dividing the message, followed by as many zeros as the register is long and
      with the start value added to its head, by the generator. */
  lemma {:induction false} FeedIsRemainder(p: seq<bool>, r: seq<bool>, bits: seq<bool>)
    requires |r| == |p| > 0
    ensures Remainder(XorPrefix(bits + Zeros(|p|), r), [true] + p) == Feed(p, r, bits)
    decreases |bits|
  {
    if bits == [] {
      assert XorPrefix(bits + Zeros(|p|), r) == r;
    } else {
      var d := bits + Zeros(|p|);
      assert d[1..] == bits[1..] + Zeros(|p|);
      DivisionStep(p, r, d);
      FeedIsRemainder(p, Step(p, r, bits[0]), bits[1..]);
    }
  }

  // ---------- algebra ----------

  lemma {:induction false} FeedAppend(p: seq<bool>, r: seq<bool>, a: seq<bool>, b: seq<bool>)
    requires |r| == |p| > 0
    ensures Feed(p, r, a + b) == Feed(p, Feed(p, r, a), b)
    decreases |a|
  {
    if a == [] {
      assert a + b == b;
    } else {
      JoinTail(a, b);
      FeedAppend(p, Step(p, r, a[0]), a[1..], b);
    }
  }

  lemma {:induction false} FeedLinear(p: seq<bool>, r: seq<bool>, s: seq<bool>, a: seq<bool>, b: seq<bool>)
    requires |r| == |s| == |p| > 0 && |a| == |b|
    ensures Feed(p, XorSeq(r, s), XorSeq(a, b)) == XorSeq(Feed(p, r, a), Feed(p, s, b))
    decreases |a|
  {
    if a != [] {
      assert Step(p, XorSeq(r, s), XorSeq(a, b)[0]) == XorSeq(Step(p, r, a[0]), Step(p, s, b[0]));
      assert XorSeq(a, b)[1..] == XorSeq(a[1..], b[1..]);
      FeedLinear(p, Step(p, r, a[0]), Step(p, s, b[0]), a[1..], b[1..]);
    }
  }

  lemma AbsorbStep(p: seq<bool>, r: seq<bool>, bits: seq<bool>)
    requires |r| == |p| > 0 && 0 < |bits| <= |p|
    ensures Step(p, XorPrefix(r, bits), false) == XorPrefix(Step(p, r, bits[0]), bits[1..])
  {
    var x := XorPrefix(r, bits);
    var a, b := Step(p, x, false), XorPrefix(Step(p, r, bits[0]), bits[1..]);
    assert x[0] == (r[0] != bits[0]);
    forall i | 0 <= i < |p|
      ensures a[i] == b[i]
    {
      if i + 1 < |p| {
        assert x[i + 1] == (if i + 1 < |bits| then r[i + 1] != bits[i + 1] else r[i + 1]);
      }
    }
  }

  /** Message bits may be added to the register all at once, as long as they fit. */
  lemma {:induction false} Absorb(p: seq<bool>, r: seq<bool>, bits: seq<bool>)
    requires |r| == |p| > 0 && |bits| <= |p|
    ensures Feed(p, r, bits) == Feed(p, XorPrefix(r, bits), Zeros(|bits|))
    decreases |bits|
  {
    if bits == [] {
      assert XorPrefix(r, bits) == r;
    } else {
      AbsorbStep(p, r, bits);
      Absorb(p, Step(p, r, bits[0]), bits[1..]);
      assert Zeros(|bits|)[1..] == Zeros(|bits[1..]|);
    }
  }

  lemma {:induction false} ZerosFeedZeros(p: seq<bool>, n: nat)
    requires |p| > 0
    ensures Feed(p, Zeros(|p|), Zeros(n)) == Zeros(|p|)
    decreases n
  {
    if n > 0 {
      assert Step(p, Zeros(|p|), false) == Zeros(|p|);
      assert Zeros(n)[1..] == Zeros(n - 1);
      ZerosFeedZeros(p, n - 1);
    }
  }

  /** Leading zeros of the register are merely shifted out. */
  lemma {:induction false} ShiftOut(p: seq<bool>, high: seq<bool>, n: nat)
    requires |high| + n == |p| > 0
    ensures Feed(p, Zeros(n) + high, Zeros(n)) == high + Zeros(n)
    decreases n
  {
    if n == 0 {
      assert Zeros(0) + high == high + Zeros(0);
    } else {
      var r := Zeros(n) + high;
      assert Step(p, r, false) == Zeros(n - 1) + (high + [false]);
      assert Zeros(n)[1..] == Zeros(n - 1);
      ShiftOut(p, high + [false], n - 1);
      assert (high + [false]) + Zeros(n - 1) == high + Zeros(n);
    }
  }

  /** When the generator has a constant term, no non-zero register is ever shifted to zero. */
  lemma {:induction false} NeverCancels(p: seq<bool>, r: seq<bool>, n: nat)
    requires |r| == |p| > 0 && p[|p| - 1]
    requires r != Zeros(|p|)
    ensures Feed(p, r, Zeros(n)) != Zeros(|p|)
    decreases n
  {
    if n > 0 {
      var r' := Step(p, r, false);
      if r[0] {
        assert r'[|p| - 1];
      } else {
        var i :| 0 <= i < |p| && r[i] != Zeros(|p|)[i];
        assert r'[i - 1];
      }
      assert Zeros(n)[1..] == Zeros(n - 1);
      NeverCancels(p, r', n - 1);
    }
  }

  lemma SomeBit(w: seq<bool>) returns (i: nat)
    requires w != Zeros(|w|)
    ensures i < |w| && w[i]
  {
    var z := Zeros(|w|);
    var k :| 0 <= k < |w| && w[k] != z[k];
    i := k;
  }

  /** A burst that starts at once leaves a non-zero register. */
  lemma BurstAtOnce(p: seq<bool>, w: seq<bool>)
    requires |w| <= |p| && 0 < |p| && p[|p| - 1]
    requires w != Zeros(|w|)
    ensures Feed(p, Zeros(|p|), w) != Zeros(|p|)
  {
    var x := XorPrefix(Zeros(|p|), w);
    var i := SomeBit(w);
    assert x[i];
    Absorb(p, Zeros(|p|), w);
    NeverCancels(p, x, |w|);
  }

  /** A lone burst no longer than the register never leaves zero. */
  lemma BurstIsSeen(p: seq<bool>, before: nat, w: seq<bool>, after: nat)
    requires |w| <= |p| && 0 < |p| && p[|p| - 1]
    requires w != Zeros(|w|)
    ensures Feed(p, Zeros(|p|), Zeros(before) + (w + Zeros(after))) != Zeros(|p|)
  {
    var zero := Zeros(|p|);
    FeedAppend(p, zero, Zeros(before), w + Zeros(after));
    ZerosFeedZeros(p, before);
    FeedAppend(p, zero, w, Zeros(after));
    BurstAtOnce(p, w);
    NeverCancels(p, Feed(p, zero, w), after);
  }

  /** The difference of two messages that agree outside a window. */
  lemma DifferenceWindow(a: seq<bool>, b: seq<bool>, at: nat, n: nat) returns (w: seq<bool>, after: nat)
    requires |a| == |b| && a != b
    requires forall i :: 0 <= i < |a| && !(at <= i < at + n) ==> a[i] == b[i]
    ensures |w| <= n && w != Zeros(|w|)
    ensures XorSeq(a, b) == Zeros(at) + (w + Zeros(after))
  {
    var e := XorSeq(a, b);
    var i :| 0 <= i < |a| && a[i] != b[i];
    var hi := if at + n <= |a| then at + n else |a|;
    w, after := e[at..hi], |a| - hi;
    assert w[i - at] == e[i];
    assert e[..at] == Zeros(at);
    assert e[hi..] == Zeros(after);
    assert e == e[..at] + (e[at..hi] + e[hi..]);
  }

  /** Every error burst no longer than the register changes the register: if two messages differ, but only
      inside as many consecutive bits as the register has, they leave different registers. */
  lemma BurstChangesRegister(p: seq<bool>, r: seq<bool>, a: seq<bool>, b: seq<bool>, at: nat)
    requires |r| == |p| > 0 && p[|p| - 1]
    requires |a| == |b| && a != b
    requires forall i :: 0 <= i < |a| && !(at <= i < at + |p|) ==> a[i] == b[i]
    ensures Feed(p, r, a) != Feed(p, r, b)
  {
    var w, after := DifferenceWindow(a, b, at, |p|);
    BurstIsSeen(p, at, w, after);
    assert XorSeq(r, r) == Zeros(|p|);
    FeedLinear(p, r, r, a, b);
  }

  /** A message followed by its own register leaves zero. */
  lemma CodewordLeavesZero(p: seq<bool>, r: seq<bool>)
    requires |r| == |p| > 0
    ensures Feed(p, r, r) == Zeros(|p|)
  {
    Absorb(p, r, r);
    assert XorPrefix(r, r) == Zeros(|p|);
    ZerosFeedZeros(p, |p|);
  }
}
